/**
  The catcher of catcher/catcher.go: the list of subscribed feeds and the operations
  that subscribe to a feed, build a feed from a decoded document, refresh feeds and
  sort them by name. Fetching and decoding a document is an input here: a document
  is Some(decoded feed) when the fetch and the decode succeed and None otherwise, and
  the files already on disk are given as a set of paths.
*/
module Catcher {
  import opened Wrappers
  import opened GoLib
  import opened CatcherTypes
  import opened Episodes
  import opened Feeds
  import opened Naming
  import opened Sorter

  // ---------------------------------------------------------------------------
  // Building a feed from a decoded document
  // ---------------------------------------------------------------------------

  /** The episodes of a document: one per item, in item order. */
  function EpisodesOf(items: seq<Item>): seq<PodEpisode>
  {
    seq(|items|, i requires 0 <= i < |items| => EpisodeFromItem(items[i]))
  }

  /** The category paths of a document, in order. */
  function CategoriesOf(categories: seq<Category>): seq<string>
  {
    seq(|categories|, i requires 0 <= i < |categories| => CategoryPath(categories[i]))
  }

  /** The feed getPodcastFromXML builds from a document, given the feeds already held
      (which decide its ID). */
  function FeedFromXML(podcasts: seq<PodFeed>, xml: Fetched, feedURL: string): PodFeed
  {
    var channel := xml.channel;
    var acronym := AcronymOf(channel.title);
    PodFeed(
      name := channel.title,
      feedURL := feedURL,
      site := channel.link,
      language := channel.language,
      podcastEpisodes := EpisodesOf(channel.items),
      copyright := channel.copyright,
      subtitle := channel.subtitle,
      description := channel.description,
      summary := channel.summary,
      image := channel.imageHref,
      categories := CategoriesOf(channel.categories),
      id := UniqueID(podcasts, acronym),
      acronym := acronym)
  }

  /** A built feed has one unflagged episode per item, in item order, with the
      enclosure's URL, and one category path per category, in order. */
  lemma FeedFromXMLShape(podcasts: seq<PodFeed>, xml: Fetched, feedURL: string)
    ensures var feed, channel := FeedFromXML(podcasts, xml, feedURL), xml.channel;
      feed.feedURL == feedURL && feed.name == channel.title &&
      |feed.podcastEpisodes| == |channel.items| &&
      (forall i :: 0 <= i < |channel.items| ==>
        feed.podcastEpisodes[i].url == channel.items[i].enclosure.url &&
        !feed.podcastEpisodes[i].shouldDownloadIfNotDownloaded) &&
      |feed.categories| == |channel.categories| &&
      (forall i :: 0 <= i < |channel.categories| ==>
        var c := channel.categories[i];
        feed.categories[i] == if c.subCategoryText != "" then c.text + "/" + c.subCategoryText else c.text)
  {
  }

  /** The category loop of getPodcastFromXML. */
  method CategoryPaths(categories: seq<Category>) returns (paths: seq<string>)
    ensures paths == CategoriesOf(categories)
  {
    paths := [];
    var k := 0;
    while k < |categories|
      invariant 0 <= k <= |categories|
      invariant paths == CategoriesOf(categories[..k])
    {
      var category := categories[k];
      var cat;
      if category.subCategoryText != "" {
        cat := category.text + "/" + category.subCategoryText;
      } else {
        cat := category.text;
      }
      paths := paths + [cat];
      k := k + 1;
    }
    assert categories[..k] == categories;
  }

  /** The item loop of getPodcastFromXML. */
  method EpisodesFromItems(items: seq<Item>) returns (episodes: seq<PodEpisode>)
    ensures episodes == EpisodesOf(items)
  {
    episodes := [];
    var k := 0;
    while k < |items|
      invariant 0 <= k <= |items|
      invariant episodes == EpisodesOf(items[..k])
    {
      var item := items[k];
      var length := ParseDuration(item.duration);
      var episode := PodEpisode(
        url := item.enclosure.url,
        description := item.description,
        shouldDownloadIfNotDownloaded := false,
        title := item.title,
        author := item.author,
        summary := "",
        pubDate := item.pubDate,
        mediaType := item.enclosure.mediaType,
        length := length,
        image := item.imageHref);
      episodes := episodes + [episode];
      k := k + 1;
    }
    assert items[..k] == items;
  }

  // ---------------------------------------------------------------------------
  // Subscribing
  // ---------------------------------------------------------------------------

  /** Some held feed has this feed URL. */
  predicate Subscribed(podcasts: seq<PodFeed>, feedURL: string)
  {
    exists i :: 0 <= i < |podcasts| && podcasts[i].feedURL == feedURL
  }

  /** AddPodcast reads the first episode and the acronym of the title, so it panics
      unless the document has an item and a well-spaced title. */
  predicate CanAdd(xml: Fetched)
  {
    |xml.channel.items| >= 1 && AcronymDefined(xml.channel.title)
  }

  /** The feed AddPodcast appends: the built feed with only its first episode flagged
      for download. */
  function NewSubscription(podcasts: seq<PodFeed>, xml: Fetched, feedURL: string): PodFeed
    requires |xml.channel.items| >= 1
  {
    var feed := FeedFromXML(podcasts, xml, feedURL);
    feed.(podcastEpisodes := feed.podcastEpisodes[0 := Flagged(feed.podcastEpisodes[0])])
  }

  /** The feeds after AddPodcastFeed: unchanged when the URL is already subscribed or
      the document could not be had, otherwise with the new feed appended. */
  function Subscribe(podcasts: seq<PodFeed>, feedURL: string, fetched: Option<Fetched>): seq<PodFeed>
    requires fetched.Some? && !Subscribed(podcasts, feedURL) ==> CanAdd(fetched.value)
  {
    if Subscribed(podcasts, feedURL) || fetched.None? then podcasts
    else podcasts + [NewSubscription(podcasts, fetched.value, feedURL)]
  }

  /** In a new subscription exactly the first episode is flagged for download. */
  lemma NewSubscriptionFlagsFirst(podcasts: seq<PodFeed>, xml: Fetched, feedURL: string)
    requires |xml.channel.items| >= 1
    ensures var eps := NewSubscription(podcasts, xml, feedURL).podcastEpisodes;
      |eps| == |xml.channel.items| &&
      forall i :: 0 <= i < |eps| ==>
        (eps[i].shouldDownloadIfNotDownloaded <==> i == 0) &&
        eps[i].url == xml.channel.items[i].enclosure.url
  {
    FeedFromXMLShape(podcasts, xml, feedURL);
  }

  /** Subscribing leaves the feeds as they are when the URL is already subscribed or no
      document was had, and otherwise appends exactly one feed, for that URL, at the
      end. */
  lemma SubscribeAppendsOne(podcasts: seq<PodFeed>, feedURL: string, fetched: Option<Fetched>)
    requires fetched.Some? && !Subscribed(podcasts, feedURL) ==> CanAdd(fetched.value)
    ensures var after := Subscribe(podcasts, feedURL, fetched);
      (Subscribed(podcasts, feedURL) || fetched.None? ==> after == podcasts) &&
      (!Subscribed(podcasts, feedURL) && fetched.Some? ==>
        |after| == |podcasts| + 1 && after[..|podcasts|] == podcasts &&
        after[|podcasts|].feedURL == feedURL) &&
      (fetched.Some? ==> Subscribed(after, feedURL))
  {
    var after := Subscribe(podcasts, feedURL, fetched);
    if !Subscribed(podcasts, feedURL) && fetched.Some? {
      assert after[..|podcasts|] == podcasts;
      assert after[|podcasts|].feedURL == feedURL;
    }
  }

  /** Subscribing twice to the same URL with the same document is subscribing once. */
  lemma SubscribeIdempotent(podcasts: seq<PodFeed>, feedURL: string, fetched: Option<Fetched>)
    requires fetched.Some? && !Subscribed(podcasts, feedURL) ==> CanAdd(fetched.value)
    ensures var once := Subscribe(podcasts, feedURL, fetched);
      Subscribe(once, feedURL, fetched) == once
  {
    SubscribeAppendsOne(podcasts, feedURL, fetched);
  }

  /** No two held feeds have the same feed URL. */
  predicate DistinctFeedURLs(podcasts: seq<PodFeed>)
  {
    forall i, j :: 0 <= i < j < |podcasts| ==> podcasts[i].feedURL != podcasts[j].feedURL
  }

  /** Subscribing keeps feed URLs distinct and keeps every ID the one derived from the
      feeds registered before it. */
  lemma SubscribeKeepsInvariants(podcasts: seq<PodFeed>, feedURL: string, fetched: Option<Fetched>)
    requires fetched.Some? && !Subscribed(podcasts, feedURL) ==> CanAdd(fetched.value)
    requires DistinctFeedURLs(podcasts) && IDsByRegistration(podcasts)
    ensures DistinctFeedURLs(Subscribe(podcasts, feedURL, fetched))
    ensures IDsByRegistration(Subscribe(podcasts, feedURL, fetched))
  {
    var after := Subscribe(podcasts, feedURL, fetched);
    if !Subscribed(podcasts, feedURL) && fetched.Some? {
      var n := |podcasts|;
      forall i | 0 <= i < |after|
        ensures after[i].id == UniqueID(after[..i], after[i].acronym)
      {
        if i < n {
          assert after[..i] == podcasts[..i];
        } else {
          assert after[..i] == podcasts;
        }
      }
      forall i, j | 0 <= i < j < |after| ensures after[i].feedURL != after[j].feedURL {
        if j == n {
          assert after[i] == podcasts[i];
        }
      }
    }
  }

  // ---------------------------------------------------------------------------
  // Refreshing a feed
  // ---------------------------------------------------------------------------

  /** The episode list of a feed after a refresh: the fetched document's episodes
      merged in when there is a document, otherwise the list as it was. */
  function RefreshedEpisodes(podFeed: PodFeed, fetched: Option<Fetched>): seq<PodEpisode>
  {
    match fetched
    case None => podFeed.podcastEpisodes
    case Some(xml) => Merged(podFeed.podcastEpisodes, EpisodesOf(xml.channel.items))
  }

  /** Refreshing keeps the feed's earlier episodes in place, and every episode it
      appends (new by URL, flagged) whose file is absent is handed to the downloader. */
  lemma RefreshDownloadsNewEpisodes(podFeed: PodFeed, fetched: Option<Fetched>, present: set<string>, i: nat)
    requires |podFeed.podcastEpisodes| <= i < |RefreshedEpisodes(podFeed, fetched)|
    requires !Downloaded(RefreshedEpisodes(podFeed, fetched)[i], present)
    ensures RefreshedEpisodes(podFeed, fetched)[..|podFeed.podcastEpisodes|] == podFeed.podcastEpisodes
    ensures RefreshedEpisodes(podFeed, fetched)[i].url !in URLs(podFeed.podcastEpisodes)
    ensures DownloadOf(RefreshedEpisodes(podFeed, fetched)[i]) in
      Dispatches(RefreshedEpisodes(podFeed, fetched), present)
  {
    var xml := fetched.value;
    MergedProperties(podFeed.podcastEpisodes, EpisodesOf(xml.channel.items));
    DispatchesComplete(RefreshedEpisodes(podFeed, fetched), present, i);
  }

  /** The flags are never cleared: refreshing the refreshed feed again with the same
      document and the same files adds no episode and hands the same downloads out
      again. */
  lemma RefreshAgainRepeatsDownloads(podFeed: PodFeed, fetched: Option<Fetched>, present: set<string>)
    ensures var again := podFeed.(podcastEpisodes := RefreshedEpisodes(podFeed, fetched));
      RefreshedEpisodes(again, fetched) == again.podcastEpisodes &&
      Dispatches(RefreshedEpisodes(again, fetched), present) == Dispatches(again.podcastEpisodes, present)
  {
    if fetched.Some? {
      MergedIdempotent(podFeed.podcastEpisodes, EpisodesOf(fetched.value.channel.items));
    }
  }

  /** PodFeed.Refresh on the feed it is given: merges the document's episodes (when
      there is one) and hands every flagged episode whose file is absent to the
      downloader. Only the episodes of the built feed are used. */
  method Refresh(podFeed: PodFeed, parent: Catcher, fetched: Option<Fetched>, present: set<string>)
    returns (updated: PodFeed, downloads: seq<Download>)
    requires fetched.Some? ==> AcronymDefined(fetched.value.channel.title)
    ensures updated == podFeed.(podcastEpisodes := RefreshedEpisodes(podFeed, fetched))
    ensures downloads == Dispatches(updated.podcastEpisodes, present)
  {
    updated := podFeed;
    if fetched.Some? {
      var podcast := parent.GetPodcastFromXML(fetched.value, podFeed.feedURL);
      var merged := MergeEpisodes(podFeed.podcastEpisodes, podcast.podcastEpisodes);
      updated := updated.(podcastEpisodes := merged);
    }
    downloads := DispatchDownloads(updated.podcastEpisodes, present);
  }

  /** The document fetched for a feed URL: Some when `network` has one for it. */
  function FetchedFor(network: map<string, Fetched>, feedURL: string): Option<Fetched>
  {
    if feedURL in network then Some(network[feedURL]) else None
  }

  /** The downloads RefreshAllPodcasts hands out, feed by feed in registration order;
      `network` maps the feed URLs whose document can be had to that document. */
  function AllDispatches(podcasts: seq<PodFeed>, network: map<string, Fetched>, present: set<string>): seq<Download>
  {
    if podcasts == [] then []
    else
      var last := podcasts[|podcasts| - 1];
      AllDispatches(podcasts[..|podcasts| - 1], network, present) +
      Dispatches(RefreshedEpisodes(last, FetchedFor(network, last.feedURL)), present)
  }

  /** The title of every document a held feed fetches can be read for an acronym. */
  predicate TitlesDefined(podcasts: seq<PodFeed>, network: map<string, Fetched>)
  {
    forall i :: 0 <= i < |podcasts| && podcasts[i].feedURL in network ==>
      AcronymDefined(network[podcasts[i].feedURL].channel.title)
  }

  /** Every download RefreshAllPodcasts hands out is for an episode of a held feed
      (after its merge) and goes to an absent path under "downloads/". */
  lemma {:induction false} AllDispatchesSound(podcasts: seq<PodFeed>, network: map<string, Fetched>, present: set<string>, d: Download)
    requires d in AllDispatches(podcasts, network, present)
    ensures HasPrefix(d.saveFile, DownloadDir) && d.saveFile !in present
    ensures exists i :: 0 <= i < |podcasts| && d in Dispatches(RefreshedEpisodes(podcasts[i], FetchedFor(network, podcasts[i].feedURL)), present)
    decreases |podcasts|
  {
    var n := |podcasts|;
    var init, last := podcasts[..n - 1], podcasts[n - 1];
    if d in AllDispatches(init, network, present) {
      AllDispatchesSound(init, network, present, d);
      var i :| 0 <= i < |init| &&
        d in Dispatches(RefreshedEpisodes(init[i], FetchedFor(network, init[i].feedURL)), present);
      assert podcasts[i] == init[i];
    } else {
      DispatchPaths(RefreshedEpisodes(last, FetchedFor(network, last.feedURL)), present, d);
    }
  }

  // ---------------------------------------------------------------------------
  // The catcher
  // ---------------------------------------------------------------------------

  class Catcher {
    var podcasts: seq<PodFeed>

    /** A catcher with no feeds. */
    constructor ()
      ensures podcasts == []
    {
      podcasts := [];
    }

    /** UniqueIDForPodcast: the acronym when no held feed has it, otherwise the acronym
        followed by one more than the number of held feeds that have it. */
    method UniqueIDForPodcast(podcastAcronym: string) returns (id: string)
      ensures id == UniqueID(podcasts, podcastAcronym)
      ensures HasPrefix(id, podcastAcronym)
      ensures id == podcastAcronym <==>
        forall i :: 0 <= i < |podcasts| ==> podcasts[i].acronym != podcastAcronym
    {
      var suffix := 1;
      var k := 0;
      while k < |podcasts|
        invariant 0 <= k <= |podcasts|
        invariant suffix == CountAcronym(podcasts[..k], podcastAcronym) + 1
      {
        assert podcasts[..k + 1][..k] == podcasts[..k];
        if podcasts[k].acronym == podcastAcronym {
          suffix := suffix + 1;
        }
        k := k + 1;
      }
      assert podcasts[..k] == podcasts;
      if suffix > 1 {
        id := podcastAcronym + FormatDecimal(suffix);
      } else {
        id := podcastAcronym;
      }
      UniqueIDShape(podcasts, podcastAcronym);
    }

    /** getPodcastFromXML: the feed a document describes, with its categories, its
        acronym and ID, and one episode per item. */
    method GetPodcastFromXML(xml: Fetched, feedURL: string) returns (podcast: PodFeed)
      requires AcronymDefined(xml.channel.title)
      ensures podcast == FeedFromXML(podcasts, xml, feedURL)
    {
      var channel := xml.channel;
      var categories := CategoryPaths(channel.categories);
      var acronym := Acronym(channel.title);
      var id := UniqueIDForPodcast(acronym);
      var episodes := EpisodesFromItems(channel.items);
      podcast := PodFeed(
        name := channel.title,
        feedURL := feedURL,
        site := channel.link,
        language := channel.language,
        podcastEpisodes := episodes,
        copyright := channel.copyright,
        subtitle := channel.subtitle,
        description := channel.description,
        summary := channel.summary,
        image := channel.imageHref,
        categories := categories,
        id := id,
        acronym := acronym);
    }

    /** AddPodcast: builds the feed, flags its first episode for download and appends
        it. */
    method AddPodcast(xml: Fetched, feedURL: string)
      requires CanAdd(xml)
      modifies this
      ensures podcasts == old(podcasts) + [NewSubscription(old(podcasts), xml, feedURL)]
    {
      var podcast := GetPodcastFromXML(xml, feedURL);
      var mostRecentEpisode := podcast.podcastEpisodes[0];
      mostRecentEpisode := mostRecentEpisode.(shouldDownloadIfNotDownloaded := true);
      podcast := podcast.(podcastEpisodes := podcast.podcastEpisodes[0 := mostRecentEpisode]);
      podcasts := podcasts + [podcast];
    }

    /** AddPodcastFeed: nothing happens when a held feed already has the URL or the
        document could not be had; otherwise the feed is added. */
    method AddPodcastFeed(feedURL: string, fetched: Option<Fetched>)
      requires fetched.Some? && !Subscribed(podcasts, feedURL) ==> CanAdd(fetched.value)
      modifies this
      ensures podcasts == Subscribe(old(podcasts), feedURL, fetched)
    {
      var k := 0;
      while k < |podcasts|
        invariant 0 <= k <= |podcasts|
        invariant forall i :: 0 <= i < k ==> podcasts[i].feedURL != feedURL
      {
        if podcasts[k].feedURL == feedURL {
          return;
        }
        k := k + 1;
      }
      if fetched.Some? {
        AddPodcast(fetched.value, feedURL);
      }
    }

    /** RefreshAllPodcasts: refreshes every feed in registration order. Each feed is
        refreshed as a copy, so the held feeds are not changed; what remains is the
        downloads handed out. */
    method RefreshAllPodcasts(network: map<string, Fetched>, present: set<string>) returns (downloads: seq<Download>)
      requires TitlesDefined(podcasts, network)
      ensures downloads == AllDispatches(podcasts, network, present)
    {
      downloads := [];
      var k := 0;
      while k < |podcasts|
        invariant 0 <= k <= |podcasts|
        invariant downloads == AllDispatches(podcasts[..k], network, present)
      {
        assert podcasts[..k + 1][..k] == podcasts[..k];
        var podcast := podcasts[k];
        var fetched := FetchedFor(network, podcast.feedURL);
        var updated, dispatched := Refresh(podcast, this, fetched, present);
        downloads := downloads + dispatched;
        k := k + 1;
      }
      assert podcasts[..k] == podcasts;
    }

    /** SortPodcastsByName: reorders the held feeds, in place, by name. */
    method SortPodcastsByName()
      modifies this
      ensures multiset(podcasts) == old(multiset(podcasts))
      ensures SortedBy(podcasts, NameLess)
    {
      var slice := new PodFeed[|podcasts|](i requires 0 <= i < |podcasts| reads this => podcasts[i]);
      assert slice[..] == podcasts;
      var sorter := new PodcastSorter(slice, NameLess);
      NameLessStrictWeakOrder();
      sorter.Sort();
      podcasts := slice[..];
    }
  }
}
