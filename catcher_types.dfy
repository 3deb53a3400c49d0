/**
  The records of the catcher package: the decoded feed document (the decode targets
  of catcher/catcherxml.go, with the fields the catcher reads) and the stored episode
  and feed records of catcher/catcher.go. Times are left out: LastRefreshed is set
  from the clock and is not modelled. An episode's Length is a time.Duration, an
  int64 count of nanoseconds.
*/
module CatcherTypes {

  /** One <category> of a channel, with the text attribute of its nested sub-category
      ("" when there is none). */
  datatype Category = Category(text: string, subCategoryText: string)

  /** The <enclosure> of an item: the media file's URL, byte length and MIME type. */
  datatype Enclosure = Enclosure(url: string, length: int, mediaType: string)

  /** One <item> of a channel. imageHref is the href attribute of its <image>. */
  datatype Item = Item(
    title: string,
    author: string,
    subtitle: string,
    summary: string,
    description: string,
    link: string,
    imageHref: string,
    pubDate: string,
    duration: string,
    enclosure: Enclosure)

  /** The <channel> of a feed document. */
  datatype Channel = Channel(
    title: string,
    link: string,
    language: string,
    copyright: string,
    subtitle: string,
    author: string,
    summary: string,
    description: string,
    ownerName: string,
    ownerEmail: string,
    imageHref: string,
    items: seq<Item>,
    categories: seq<Category>)

  /** A decoded <rss> document. */
  datatype Fetched = Fetched(channel: Channel)

  /** PodEpisode: one episode as the catcher stores it. The identity of an episode is
      its url; shouldDownloadIfNotDownloaded gates its download. */
  datatype PodEpisode = PodEpisode(
    url: string,
    description: string,
    shouldDownloadIfNotDownloaded: bool,
    title: string,
    author: string,
    summary: string,
    pubDate: string,
    mediaType: string,
    length: int,
    image: string)

  /** PodFeed: one subscribed feed and its episodes, in the order they were added. */
  datatype PodFeed = PodFeed(
    name: string,
    feedURL: string,
    site: string,
    language: string,
    podcastEpisodes: seq<PodEpisode>,
    copyright: string,
    subtitle: string,
    description: string,
    summary: string,
    image: string,
    categories: seq<string>,
    id: string,
    acronym: string)
}
