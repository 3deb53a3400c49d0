/**
  Episode-level operations of catcher/catcher.go: where an episode's media file is
  stored, whether it is audio or video, its description with HTML tags removed, the
  parsing of an item's duration, and the mapping of a decoded item to a stored episode.
*/
module Episodes {
  import opened GoLib
  import opened CatcherTypes

  // ---------------------------------------------------------------------------
  // Download location
  // ---------------------------------------------------------------------------

  /** The directory all media files are downloaded into. */
  const DownloadDir: string := "downloads/"

  /** DownloadedFilename: "downloads/" followed by the part of the URL after its last
      '/'. The stated contract determines that part: it holds no '/', ends the URL,
      and either is the whole URL or follows a '/'. */
  function DownloadedFilename(episode: PodEpisode): (path: string)
    ensures HasPrefix(path, DownloadDir)
    ensures '/' !in path[|DownloadDir|..]
    ensures var url, file := episode.url, path[|DownloadDir|..];
      |file| <= |url| && file == url[|url| - |file|..] &&
      (|file| == |url| || url[|url| - |file| - 1] == '/')
  {
    DownloadDir + PathFile(episode.url)
  }

  /** Downloaded: the episode's file is among the files that exist. The file system is
      given as the set of paths present. */
  function Downloaded(episode: PodEpisode, present: set<string>): (downloaded: bool)
    ensures downloaded <==>
      (exists path {:trigger HasPrefix(path, DownloadDir)} :: path in present && HasPrefix(path, DownloadDir) &&
         path[|DownloadDir|..] == PathFile(episode.url))
  {
    DownloadedFilename(episode) in present
  }

  /** The stored path of an episode at dir + "/" + file is "downloads/" + file. */
  lemma DownloadedFilenameOfURL(episode: PodEpisode, dir: string, file: string)
    requires '/' !in file
    requires episode.url == dir + ['/'] + file
    ensures DownloadedFilename(episode) == DownloadDir + file
  {
    PathFileAfterSlash(dir, file);
  }

  /** Two episodes whose URLs differ only before the last '/' share one download path,
      so one file can stand for both. */
  lemma DownloadPathsCanCoincide(e1: PodEpisode, e2: PodEpisode, dir1: string, dir2: string, file: string)
    requires '/' !in file
    requires e1.url == dir1 + ['/'] + file && e2.url == dir2 + ['/'] + file
    ensures DownloadedFilename(e1) == DownloadedFilename(e2)
    ensures dir1 != dir2 ==> e1.url != e2.url
  {
    DownloadedFilenameOfURL(e1, dir1, file);
    DownloadedFilenameOfURL(e2, dir2, file);
    DifferentDirectories(dir1, dir2, file);
  }

  lemma DifferentDirectories(dir1: string, dir2: string, file: string)
    ensures dir1 != dir2 ==> dir1 + ['/'] + file != dir2 + ['/'] + file
  {
    if dir1 + ['/'] + file == dir2 + ['/'] + file {
      assert dir1 + ['/'] + file == dir1 + (['/'] + file);
      assert dir2 + ['/'] + file == dir2 + (['/'] + file);
      SameSuffixSamePrefix(dir1, dir2, ['/'] + file);
    }
  }

  lemma SameSuffixSamePrefix(a: string, b: string, t: string)
    requires a + t == b + t
    ensures a == b
  {
    assert |a| == |b|;
    assert a == (a + t)[..|a|];
    assert b == (b + t)[..|b|];
  }

  // ---------------------------------------------------------------------------
  // Media type
  // ---------------------------------------------------------------------------

  /** IsAudio: the MIME type starts with "audio". */
  function IsAudio(episode: PodEpisode): (audio: bool)
    ensures audio <==> |episode.mediaType| >= 5 && episode.mediaType == "audio" + episode.mediaType[5..]
  {
    HasPrefix(episode.mediaType, "audio")
  }

  /** IsVideo: the MIME type starts with "video". */
  function IsVideo(episode: PodEpisode): (video: bool)
    ensures video <==> |episode.mediaType| >= 5 && episode.mediaType == "video" + episode.mediaType[5..]
    ensures video ==> !IsAudio(episode)
  {
    HasPrefix(episode.mediaType, "video")
  }

  /** No episode is both audio and video; the types the two prefixes name are audio
      and video respectively. */
  lemma AudioIsNotVideo(episode: PodEpisode, rest: string)
    ensures !(IsAudio(episode) && IsVideo(episode))
    ensures episode.mediaType == "audio" + rest ==> IsAudio(episode) && !IsVideo(episode)
    ensures episode.mediaType == "video" + rest ==> IsVideo(episode) && !IsAudio(episode)
  {
    if episode.mediaType == "audio" + rest {
      assert episode.mediaType[..5] == "audio";
    }
    if episode.mediaType == "video" + rest {
      assert episode.mediaType[..5] == "video";
    }
  }

  // ---------------------------------------------------------------------------
  // PlainTextDescription: removing every match of the regexp <[^>]*>
  // ---------------------------------------------------------------------------

  /** The position of the first c in s. */
  function IndexOf(s: string, c: char): (i: nat)
    requires c in s
    ensures i < |s| && s[i] == c && c !in s[..i]
  {
    if s[0] == c then 0
    else
      assert s == [s[0]] + s[1..];
      var j := IndexOf(s[1..], c);
      assert s[..j + 1] == [s[0]] + s[1..][..j];
      j + 1
  }

  /** s with every span from a '<' to the next '>' removed, scanning from the left: the
      result of replacing each match of <[^>]*> by nothing. A '<' with no '>' after it
      stays. */
  function StripTags(s: string): (r: string)
    ensures |r| <= |s|
    ensures '>' in r ==> '>' in s
    decreases |s|
  {
    if s == [] then []
    else if s[0] == '<' && '>' in s then StripTags(s[IndexOf(s, '>') + 1..])
    else [s[0]] + StripTags(s[1..])
  }

  /** No '<' precedes a '>': nothing a tag pattern could match. */
  predicate TagFree(s: string)
  {
    forall i, j :: 0 <= i < j < |s| && s[i] == '<' ==> s[j] != '>'
  }

  /** The result holds no tag. */
  lemma {:induction false} StripTagsIsTagFree(s: string)
    ensures TagFree(StripTags(s))
    decreases |s|
  {
    if s != [] {
      if s[0] == '<' && '>' in s {
        StripTagsIsTagFree(s[IndexOf(s, '>') + 1..]);
      } else {
        var rest := StripTags(s[1..]);
        StripTagsIsTagFree(s[1..]);
        var r := [s[0]] + rest;
        forall i, j | 0 <= i < j < |r| && r[i] == '<'
          ensures r[j] != '>'
        {
          if i == 0 {
            assert r[j] == rest[j - 1] && rest[j - 1] in rest;
          } else {
            assert r[i] == rest[i - 1] && r[j] == rest[j - 1];
          }
        }
      }
    }
  }

  /** Text with no tag in it is left as it is. */
  lemma {:induction false} StripTagsKeepsTagFree(s: string)
    requires TagFree(s)
    ensures StripTags(s) == s
    decreases |s|
  {
    if s != [] {
      if s[0] == '<' && '>' in s {
        assert false;
      }
      StripTagsKeepsTagFree(s[1..]);
      assert s == [s[0]] + s[1..];
    }
  }

  /** Stripping twice is stripping once. */
  lemma StripTagsIdempotent(s: string)
    ensures StripTags(StripTags(s)) == StripTags(s)
  {
    StripTagsIsTagFree(s);
    StripTagsKeepsTagFree(StripTags(s));
  }

  /** Text without '<' before a tag is kept, the tag itself is dropped, and the rest is
      stripped on its own. */
  lemma {:induction false} StripTagsOneTag(text: string, tag: string, rest: string)
    requires '<' !in text
    requires '>' !in tag
    ensures StripTags(text + (['<'] + tag + ['>'] + rest)) == text + StripTags(rest)
    decreases |text|
  {
    var t := ['<'] + tag + ['>'] + rest;
    if text == [] {
      TagShape(tag, rest);
      StripTagsLeadingTag(t, |tag| + 1);
      assert text + t == t;
    } else {
      var s := text + t;
      DropFirst(text, t, StripTags(rest));
      assert s[0..] == s;
      StripTagsKeepsText(s, 0);
      StripTagsOneTag(text[1..], tag, rest);
    }
  }

  /** The pieces of a tag followed by more text. */
  lemma TagShape(tag: string, rest: string)
    ensures var t := ['<'] + tag + ['>'] + rest;
      |t| == |tag| + 2 + |rest| && t[0] == '<' && t[|tag| + 1] == '>' &&
      t[1..|tag| + 1] == tag && t[|tag| + 2..] == rest
  {
    var t := ['<'] + tag + ['>'] + rest;
    assert t[1..|tag| + 1] == tag;
    assert t[|tag| + 2..] == rest;
  }

  /** Taking the first character off a non-empty front. */
  lemma DropFirst(front: string, back: string, more: string)
    requires front != []
    ensures (front + back)[0] == front[0] && (front + back)[1..] == front[1..] + back
    ensures [front[0]] + (front[1..] + more) == front + more
  {
    assert (front + back)[1..] == front[1..] + back;
    assert [front[0]] + (front[1..] + more) == front + more;
  }

  /** IndexOf finds the first occurrence and no other. */
  lemma IndexOfUnique(s: string, c: char, k: nat)
    requires k < |s| && s[k] == c && c !in s[..k]
    ensures IndexOf(s, c) == k
  {
  }

  /** A tag at the front, from '<' to the first '>' at k, is dropped. */
  lemma StripTagsLeadingTag(t: string, k: nat)
    requires 0 < k < |t| && t[0] == '<' && t[k] == '>' && '>' !in t[1..k]
    ensures StripTags(t) == StripTags(t[k + 1..])
  {
    assert t[..k] == [t[0]] + t[1..k];
    IndexOfUnique(t, '>', k);
  }

  /** A character that opens no tag is kept. */
  lemma StripTagsKeepsText(s: string, i: nat)
    requires i < |s| && (s[i] != '<' || '>' !in s[i + 1..])
    ensures StripTags(s[i..]) == [s[i]] + StripTags(s[i + 1..])
  {
    var t := s[i..];
    assert t == [s[i]] + s[i + 1..];
    assert t[1..] == s[i + 1..];
    assert '>' in t ==> s[i] == '>' || '>' in s[i + 1..];
  }

  /** A tag from the '<' at i to the first '>' at j is dropped. */
  lemma StripTagsDropsTag(s: string, i: nat, j: nat)
    requires i < j < |s| && s[i] == '<' && s[j] == '>' && '>' !in s[i + 1..j]
    ensures StripTags(s[i..]) == StripTags(s[j + 1..])
  {
    var t := s[i..];
    assert t[1..j - i] == s[i + 1..j];
    StripTagsLeadingTag(t, j - i);
    assert t[j - i + 1..] == s[j + 1..];
  }

  /** No '>' at any position from lo up to hi. */
  predicate NoCloseBetween(s: string, lo: nat, hi: nat)
    requires lo <= hi <= |s|
  {
    forall k :: lo <= k < hi ==> s[k] != '>'
  }

  lemma NoCloseBetweenSlice(s: string, lo: nat, hi: nat)
    requires lo <= hi <= |s| && NoCloseBetween(s, lo, hi)
    ensures '>' !in s[lo..hi]
  {
    forall k | 0 <= k < hi - lo
      ensures s[lo..hi][k] != '>'
    {
      assert s[lo..hi][k] == s[lo + k];
    }
  }

  /** The index of the first '>' after the '<' at i, or |s| when the tag is not
      closed. */
  method FindTagEnd(s: string, i: nat) returns (j: nat)
    requires i < |s|
    ensures i + 1 <= j <= |s| && NoCloseBetween(s, i + 1, j)
    ensures j < |s| ==> s[j] == '>'
  {
    j := i + 1;
    while j < |s| && s[j] != '>'
      invariant i + 1 <= j <= |s|
      invariant NoCloseBetween(s, i + 1, j)
      decreases |s| - j
    {
      j := j + 1;
    }
  }

  /** PlainTextDescription: the description with its HTML tags removed, by a left to
      right scan. */
  method PlainTextDescription(episode: PodEpisode) returns (plain: string)
    ensures plain == StripTags(episode.description)
  {
    var s := episode.description;
    plain := "";
    var i := 0;
    while i < |s|
      invariant 0 <= i <= |s|
      invariant plain + StripTags(s[i..]) == StripTags(s)
      decreases |s| - i
    {
      var j := |s|;
      if s[i] == '<' {
        j := FindTagEnd(s, i);
      }
      if j < |s| {
        var next := j + 1;
        StripTagsStepOverTag(s, i, j, plain);
        assert s[next..] == s[j + 1..];
        i := next;
      } else {
        var next := i + 1;
        StripTagsStepOverText(s, i, plain);
        assert s[next..] == s[i + 1..];
        plain := plain + [s[i]];
        i := next;
      }
    }
  }

  /** A step of PlainTextDescription over the closed tag from i to j keeps its
      invariant. */
  lemma StripTagsStepOverTag(s: string, i: nat, j: nat, plain: string)
    requires i < j < |s| && s[i] == '<' && s[j] == '>' && NoCloseBetween(s, i + 1, j)
    requires plain + StripTags(s[i..]) == StripTags(s)
    ensures plain + StripTags(s[j + 1..]) == StripTags(s)
  {
    NoCloseBetweenSlice(s, i + 1, j);
    StripTagsDropsTag(s, i, j);
  }

  /** A step of PlainTextDescription over a character that opens no closed tag keeps
      its invariant. */
  lemma StripTagsStepOverText(s: string, i: nat, plain: string)
    requires i < |s| && (s[i] != '<' || NoCloseBetween(s, i + 1, |s|))
    requires plain + StripTags(s[i..]) == StripTags(s)
    ensures (plain + [s[i]]) + StripTags(s[i + 1..]) == StripTags(s)
  {
    if s[i] == '<' {
      NoCloseBetweenSlice(s, i + 1, |s|);
    }
    AppendOne(plain, s[i], StripTags(s[i + 1..]));
    StripTagsKeepsText(s, i);
  }

  lemma AppendOne(front: string, c: char, back: string)
    ensures (front + [c]) + back == front + ([c] + back)
  {
  }

  // ---------------------------------------------------------------------------
  // ParseDuration
  // ---------------------------------------------------------------------------

  /** time.Second, time.Minute and time.Hour, in nanoseconds. */
  const Second: int := 1_000_000_000
  const Minute: int := 60_000_000_000
  const Hour: int := 3_600_000_000_000

  /** The k-th ':'-separated component of a duration string, counted from the right
      (0 for seconds), read by strconv.ParseInt(_, 0, 0); 0 when there is none. */
  function Component(dur: string, k: nat): int
  {
    ComponentOf(Split(dur, ':'), k)
  }

  /** The k-th component from the right of the pieces of a duration, 0 when absent. */
  function ComponentOf(parts: seq<string>, k: nat): int
  {
    if k < |parts| then ParseInt(parts[|parts| - 1 - k]) else 0
  }

  /** Pieces further left do not change the components a tail already has. */
  lemma ComponentOfTail(front: seq<string>, tail: seq<string>, k: nat)
    requires k < |tail|
    ensures ComponentOf(front + tail, k) == ComponentOf(tail, k)
  {
    assert (front + tail)[|front + tail| - 1 - k] == tail[|tail| - 1 - k];
  }

  /** The duration ParseDuration returns, in nanoseconds: hours, minutes and seconds
      from the last three components, reduced into int64 as Go's arithmetic does. */
  function DurationOf(dur: string): (d: int)
    ensures MinInt64 <= d <= MaxInt64
  {
    DurationFrom(Component(dur, 0), Component(dur, 1), Component(dur, 2))
  }

  /** seconds + minutes + hours, in nanoseconds, reduced into int64. */
  function DurationFrom(seconds: int, minutes: int, hours: int): int
  {
    Wrap64(seconds * Second + minutes * Minute + hours * Hour)
  }

  /** Components below a million each add up without leaving int64. */
  lemma DurationFromSmall(seconds: nat, minutes: nat, hours: nat)
    requires seconds < 1_000_000 && minutes < 1_000_000 && hours < 1_000_000
    ensures DurationFrom(seconds, minutes, hours) == seconds * Second + minutes * Minute + hours * Hour
  {
    assert hours * Hour <= 999_999 * 3_600_000_000_000;
    assert minutes * Minute <= 999_999 * 60_000_000_000;
    assert seconds * Second <= 999_999 * 1_000_000_000;
    Wrap64Exact(seconds * Second + minutes * Minute + hours * Hour);
  }

  /** d += x on int64 values: both the product x and the sum wrap around. */
  function AddInt64(d: int, x: int): (r: int)
    ensures MinInt64 <= r <= MaxInt64
  {
    Wrap64(d + Wrap64(x))
  }

  /** Adding zero leaves an int64 value alone. */
  lemma AddInt64Zero(d: int)
    requires MinInt64 <= d <= MaxInt64
    ensures AddInt64(d, 0) == d
  {
    Wrap64Exact(0);
    Wrap64Exact(d);
  }

  /** One accumulation step keeps d congruent to the exact sum modulo 2^64. */
  lemma AccumulateStep(d: int, exact: int, x: int)
    requires (d - exact) % TwoTo64 == 0
    ensures (AddInt64(d, x) - (exact + x)) % TwoTo64 == 0
  {
    var w := Wrap64(x);
    var r := Wrap64(d + w);
    var p, q, u := (d - exact) / TwoTo64, (x - w) / TwoTo64, (d + w - r) / TwoTo64;
    assert r - (exact + x) == (p - q - u) * TwoTo64;
  }

  /** Accumulating seconds, minutes and hours in int64, as ParseDuration does, gives
      the int64 wrap of the exact sum. */
  lemma AccumulateThree(seconds: int, minutes: int, hours: int)
    ensures AddInt64(AddInt64(AddInt64(0, seconds * Second), minutes * Minute), hours * Hour)
         == DurationFrom(seconds, minutes, hours)
  {
    var d1 := AddInt64(0, seconds * Second);
    AccumulateStep(0, 0, seconds * Second);
    var d2 := AddInt64(d1, minutes * Minute);
    AccumulateStep(d1, seconds * Second, minutes * Minute);
    var d3 := AddInt64(d2, hours * Hour);
    AccumulateStep(d2, seconds * Second + minutes * Minute, hours * Hour);
    Wrap64Exact(d3);
    Wrap64Congruent(d3, seconds * Second + minutes * Minute + hours * Hour);
  }

  /** ParseDuration: seconds, minutes and hours from the right, each read by
      strconv.ParseInt, multiplied and summed in int64. */
  method ParseDuration(dur: string) returns (d: int)
    ensures d == DurationOf(dur)
  {
    var split := Split(dur, ':');
    ghost var s, m, h := Component(dur, 0), Component(dur, 1), Component(dur, 2);
    d := 0;
    if |split| >= 1 {
      var t := ParseInt(split[|split| - 1]);
      d := AddInt64(d, t * Second);
    }
    assert d == AddInt64(0, s * Second);
    if |split| >= 2 {
      var t := ParseInt(split[|split| - 2]);
      d := AddInt64(d, t * Minute);
    } else {
      AddInt64Zero(d);
    }
    assert d == AddInt64(AddInt64(0, s * Second), m * Minute);
    if |split| >= 3 {
      var t := ParseInt(split[|split| - 3]);
      d := AddInt64(d, t * Hour);
    } else {
      AddInt64Zero(d);
    }
    AccumulateThree(s, m, h);
  }

  /** The components of a string split into the pieces parts. */
  lemma ComponentsOf(dur: string, parts: seq<string>)
    requires Split(dur, ':') == parts
    ensures forall k: nat :: k < |parts| ==> Component(dur, k) == ParseInt(parts[|parts| - 1 - k])
    ensures forall k: nat :: k >= |parts| ==> Component(dur, k) == 0
  {
  }

  /** Components further left than the hours are ignored. */
  lemma DurationIgnoresLeftComponents(prefix: string, rest: string)
    requires |Split(rest, ':')| >= 3
    ensures DurationOf(prefix + [':'] + rest) == DurationOf(rest)
  {
    SplitAppend(prefix, rest, ':');
    var front, tail := Split(prefix, ':'), Split(rest, ':');
    ComponentOfTail(front, tail, 0);
    ComponentOfTail(front, tail, 1);
    ComponentOfTail(front, tail, 2);
  }

  lemma SplitThree(a: string, b: string, c: string)
    requires ':' !in a && ':' !in b && ':' !in c
    ensures Split(a + [':'] + b + [':'] + c, ':') == [a, b, c]
  {
    SplitNoSep(a, ':');
    SplitNoSep(b, ':');
    SplitNoSep(c, ':');
    SplitAppend(a, b + [':'] + c, ':');
    SplitAppend(b, c, ':');
    assert a + [':'] + b + [':'] + c == a + [':'] + (b + [':'] + c);
  }

  /** "h:m:s" written in decimal is h hours, m minutes and s seconds. */
  lemma DurationOfClock(h: nat, m: nat, s: nat)
    requires h < 1_000_000 && m < 1_000_000 && s < 1_000_000
    ensures DurationOf(FormatDecimal(h) + [':'] + FormatDecimal(m) + [':'] + FormatDecimal(s))
         == h * Hour + m * Minute + s * Second
  {
    var hs, ms, ss := FormatDecimal(h), FormatDecimal(m), FormatDecimal(s);
    var dur := hs + [':'] + ms + [':'] + ss;
    SplitThree(hs, ms, ss);
    ComponentsOf(dur, [hs, ms, ss]);
    ParseIntFormatDecimal(h);
    ParseIntFormatDecimal(m);
    ParseIntFormatDecimal(s);
    assert Component(dur, 0) == s && Component(dur, 1) == m && Component(dur, 2) == h;
    DurationFromSmall(s, m, h);
  }

  /** "m:s" written in decimal is m minutes and s seconds. */
  lemma DurationOfMinutesSeconds(m: nat, s: nat)
    requires m < 1_000_000 && s < 1_000_000
    ensures DurationOf(FormatDecimal(m) + [':'] + FormatDecimal(s)) == m * Minute + s * Second
  {
    var ms, ss := FormatDecimal(m), FormatDecimal(s);
    var dur := ms + [':'] + ss;
    SplitNoSep(ms, ':');
    SplitNoSep(ss, ':');
    SplitAppend(ms, ss, ':');
    ComponentsOf(dur, [ms, ss]);
    ParseIntFormatDecimal(m);
    ParseIntFormatDecimal(s);
    assert Component(dur, 0) == s && Component(dur, 1) == m && Component(dur, 2) == 0;
    DurationFromSmall(s, m, 0);
  }

  /** A leading zero makes strconv read octal: "010" is 8 seconds. The literal comes in
      through a parameter so that the verifier does not unfold the recursive
      definitions on it before the proof's steps are in place. */
  lemma DurationLeadingZeroIsOctal(dur: string)
    requires dur == "010"
    ensures DurationOf(dur) == 8 * Second
  {
    SplitNoSep(dur, ':');
    assert dur[..2][..1] == dur[..1] && dur[..1][..0] == [];
    assert ScanDigits(dur[..1], 8) == Value(0);
    assert ScanDigits(dur[..2], 8) == Value(1);
    assert ScanDigits(dur, 8) == Value(8);
    assert ParseInt(dur) == 8;
    assert Component(dur, 0) == 8 && Component(dur, 1) == 0 && Component(dur, 2) == 0;
    DurationFromSmall(8, 0, 0);
  }

  /** "08" is no octal numeral, so strconv fails on it and it counts as 0 seconds. The
      literal is a parameter for the same reason as above. */
  lemma DurationEightIsNotOctal(dur: string)
    requires dur == "08"
    ensures DurationOf(dur) == 0
  {
    SplitNoSep(dur, ':');
    assert dur[..1][..0] == [];
    assert ScanDigits(dur[..1], 8) == Value(0);
    assert ScanDigits(dur, 8) == SyntaxError;
    assert ParseInt(dur) == 0;
    assert Component(dur, 0) == 0 && Component(dur, 1) == 0 && Component(dur, 2) == 0;
    DurationFromSmall(0, 0, 0);
  }

  // ---------------------------------------------------------------------------
  // From a decoded item to a stored episode
  // ---------------------------------------------------------------------------

  /** The episode getPodcastFromXML makes of one item: the URL and type of its
      enclosure, its duration parsed, the download flag clear. Summary is not copied. */
  function EpisodeFromItem(item: Item): (episode: PodEpisode)
    ensures episode.url == item.enclosure.url
    ensures !episode.shouldDownloadIfNotDownloaded
    ensures episode.length == DurationOf(item.duration)
  {
    PodEpisode(
      url := item.enclosure.url,
      description := item.description,
      shouldDownloadIfNotDownloaded := false,
      title := item.title,
      author := item.author,
      summary := "",
      pubDate := item.pubDate,
      mediaType := item.enclosure.mediaType,
      length := DurationOf(item.duration),
      image := item.imageHref)
  }
}
