/**
  The two loops of PodFeed.Refresh in catcher/catcher.go: merging freshly fetched
  episodes into a feed's episode list (deduplicated by URL), and choosing which
  episodes to hand to the downloader.
*/
module Feeds {
  import opened GoLib
  import opened CatcherTypes
  import opened Episodes

  // ---------------------------------------------------------------------------
  // Episode merge
  // ---------------------------------------------------------------------------

  /** The URLs of a list of episodes. */
  function URLs(eps: seq<PodEpisode>): set<string>
  {
    set i | 0 <= i < |eps| :: eps[i].url
  }

  /** No URL occurs twice. */
  predicate DistinctURLs(eps: seq<PodEpisode>)
  {
    forall i, j :: 0 <= i < j < |eps| ==> eps[i].url != eps[j].url
  }

  /** An episode with its download flag set. */
  function Flagged(episode: PodEpisode): (flagged: PodEpisode)
    ensures flagged.shouldDownloadIfNotDownloaded
    ensures flagged.url == episode.url
  {
    episode.(shouldDownloadIfNotDownloaded := true)
  }

  /** The episodes a merge appends, as a filter over the fetched list: each fetched
      episode whose URL is neither in `seen` nor on an earlier fetched episode, flagged,
      in fetched order. */
  function NewEpisodes(seen: set<string>, fetched: seq<PodEpisode>): seq<PodEpisode>
    decreases |fetched|
  {
    if fetched == [] then []
    else if fetched[0].url in seen then NewEpisodes(seen, fetched[1..])
    else [Flagged(fetched[0])] + NewEpisodes(seen + {fetched[0].url}, fetched[1..])
  }

  /** The episode list after a merge: the existing list followed by the new episodes. */
  function Merged(existing: seq<PodEpisode>, fetched: seq<PodEpisode>): seq<PodEpisode>
  {
    existing + NewEpisodes(URLs(existing), fetched)
  }

  lemma URLsSingleton(e: PodEpisode)
    ensures URLs([e]) == {e.url}
  {
    assert [e][0] == e;
  }

  lemma URLsAppend(a: seq<PodEpisode>, b: seq<PodEpisode>)
    ensures URLs(a + b) == URLs(a) + URLs(b)
  {
    var ab := a + b;
    forall u | u in URLs(a) + URLs(b) ensures u in URLs(ab) {
      if u in URLs(a) {
        var i :| 0 <= i < |a| && a[i].url == u;
        assert ab[i] == a[i];
      } else {
        var i :| 0 <= i < |b| && b[i].url == u;
        assert ab[|a| + i] == b[i];
      }
    }
  }

  /** The new episodes carry exactly the fetched URLs not yet seen. */
  lemma {:induction false} NewEpisodesURLs(seen: set<string>, fetched: seq<PodEpisode>)
    ensures URLs(NewEpisodes(seen, fetched)) == URLs(fetched) - seen
    decreases |fetched|
  {
    if fetched != [] {
      var e, rest := fetched[0], fetched[1..];
      assert fetched == [e] + rest;
      URLsAppend([e], rest);
      URLsSingleton(e);
      if e.url in seen {
        NewEpisodesURLs(seen, rest);
      } else {
        NewEpisodesURLs(seen + {e.url}, rest);
        URLsAppend([Flagged(e)], NewEpisodes(seen + {e.url}, rest));
        URLsSingleton(Flagged(e));
      }
    }
  }

  /** Every new episode is flagged for download and is a fetched episode with its flag
      set. */
  lemma {:induction false} NewEpisodesFlagged(seen: set<string>, fetched: seq<PodEpisode>)
    ensures forall e :: e in NewEpisodes(seen, fetched) ==>
      e.shouldDownloadIfNotDownloaded && exists f :: f in fetched && e == Flagged(f)
    decreases |fetched|
  {
    if fetched != [] {
      var e, rest := fetched[0], fetched[1..];
      if e.url in seen {
        NewEpisodesFlagged(seen, rest);
      } else {
        NewEpisodesFlagged(seen + {e.url}, rest);
      }
      forall n | n in NewEpisodes(seen, fetched)
        ensures exists f :: f in fetched && n == Flagged(f)
      {
        if n == Flagged(e) {
          assert e in fetched;
        } else {
          var f :| f in rest && n == Flagged(f);
          assert f in fetched;
        }
      }
    }
  }

  /** The new episodes have pairwise distinct URLs, none of them already seen. */
  lemma {:induction false} NewEpisodesDistinct(seen: set<string>, fetched: seq<PodEpisode>)
    ensures DistinctURLs(NewEpisodes(seen, fetched))
    ensures URLs(NewEpisodes(seen, fetched)) !! seen
    decreases |fetched|
  {
    NewEpisodesURLs(seen, fetched);
    if fetched != [] {
      var e, rest := fetched[0], fetched[1..];
      if e.url in seen {
        NewEpisodesDistinct(seen, rest);
      } else {
        var tail := NewEpisodes(seen + {e.url}, rest);
        NewEpisodesDistinct(seen + {e.url}, rest);
        var all := [Flagged(e)] + tail;
        forall i, j | 0 <= i < j < |all| ensures all[i].url != all[j].url {
          if i == 0 {
            assert all[j] == tail[j - 1];
            assert tail[j - 1].url in URLs(tail);
          } else {
            assert all[i] == tail[i - 1] && all[j] == tail[j - 1];
          }
        }
      }
    }
  }

  /** Nothing is new when every fetched URL has been seen. */
  lemma {:induction false} NewEpisodesNoneUnseen(seen: set<string>, fetched: seq<PodEpisode>)
    requires URLs(fetched) <= seen
    ensures NewEpisodes(seen, fetched) == []
    decreases |fetched|
  {
    if fetched != [] {
      assert fetched[0].url in URLs(fetched);
      assert URLs(fetched[1..]) <= URLs(fetched) by {
        forall u | u in URLs(fetched[1..]) ensures u in URLs(fetched) {
          var i :| 0 <= i < |fetched[1..]| && fetched[1..][i].url == u;
          assert fetched[i + 1].url == u;
        }
      }
      NewEpisodesNoneUnseen(seen, fetched[1..]);
    }
  }

  /** Filtering one more fetched episode appends it, flagged, exactly when its URL is
      neither seen nor on an earlier fetched episode. */
  lemma {:induction false} NewEpisodesSnoc(seen: set<string>, fetched: seq<PodEpisode>, e: PodEpisode)
    ensures NewEpisodes(seen, fetched + [e]) ==
      NewEpisodes(seen, fetched) + (if e.url in seen + URLs(fetched) then [] else [Flagged(e)])
    decreases |fetched|
  {
    if fetched == [] {
      assert [e][1..] == [];
      assert URLs([]) == {};
    } else {
      var f, rest := fetched[0], fetched[1..];
      assert (fetched + [e])[0] == f && (fetched + [e])[1..] == rest + [e];
      assert fetched == [f] + rest;
      URLsAppend([f], rest);
      URLsSingleton(f);
      if f.url in seen {
        NewEpisodesSnoc(seen, rest, e);
      } else {
        NewEpisodesSnoc(seen + {f.url}, rest, e);
      }
    }
  }

  /** One step of MergeEpisodes: appending the next fetched episode when, and only
      when, its URL is not yet present keeps the merged list equal to Merged. */
  lemma MergeStep(existing: seq<PodEpisode>, done: seq<PodEpisode>, e: PodEpisode, merged: seq<PodEpisode>)
    requires merged == existing + NewEpisodes(URLs(existing), done)
    requires URLs(merged) == URLs(existing) + URLs(done)
    ensures var next := if e.url in URLs(merged) then merged else merged + [Flagged(e)];
      next == existing + NewEpisodes(URLs(existing), done + [e]) &&
      URLs(next) == URLs(existing) + URLs(done + [e])
  {
    NewEpisodesSnoc(URLs(existing), done, e);
    URLsAppend(done, [e]);
    URLsSingleton(e);
    URLsAppend(merged, [Flagged(e)]);
    URLsSingleton(Flagged(e));
  }

  /** Merge: the existing episodes keep their places, every fetched URL is present
      afterwards and no URL is introduced twice. */
  lemma MergedProperties(existing: seq<PodEpisode>, fetched: seq<PodEpisode>)
    ensures var merged := Merged(existing, fetched);
      |merged| >= |existing| && merged[..|existing|] == existing &&
      URLs(merged) == URLs(existing) + URLs(fetched) &&
      (DistinctURLs(existing) ==> DistinctURLs(merged)) &&
      forall i :: |existing| <= i < |merged| ==>
        merged[i].shouldDownloadIfNotDownloaded && merged[i].url !in URLs(existing)
  {
    var seen := URLs(existing);
    var added := NewEpisodes(seen, fetched);
    var merged := existing + added;
    assert merged[..|existing|] == existing;
    URLsAppend(existing, added);
    NewEpisodesURLs(seen, fetched);
    NewEpisodesDistinct(seen, fetched);
    NewEpisodesFlagged(seen, fetched);
    forall i | |existing| <= i < |merged|
      ensures merged[i].shouldDownloadIfNotDownloaded && merged[i].url !in seen
    {
      assert merged[i] == added[i - |existing|];
      assert added[i - |existing|] in added;
      assert added[i - |existing|].url in URLs(added);
    }
    if DistinctURLs(existing) {
      forall i, j | 0 <= i < j < |merged| ensures merged[i].url != merged[j].url {
        if j >= |existing| && i < |existing| {
          assert merged[i].url in seen;
        } else if i >= |existing| {
          assert merged[i] == added[i - |existing|] && merged[j] == added[j - |existing|];
        }
      }
    }
  }

  /** Merging the same fetched list a second time appends nothing. */
  lemma MergedIdempotent(existing: seq<PodEpisode>, fetched: seq<PodEpisode>)
    ensures Merged(Merged(existing, fetched), fetched) == Merged(existing, fetched)
  {
    var once := Merged(existing, fetched);
    MergedProperties(existing, fetched);
    NewEpisodesNoneUnseen(URLs(once), fetched);
  }

  /** The scan of Refresh's inner loop: whether some episode of the list has the URL. */
  method HasURL(eps: seq<PodEpisode>, url: string) returns (found: bool)
    ensures found <==> url in URLs(eps)
  {
    found := false;
    var j := 0;
    while j < |eps|
      invariant 0 <= j <= |eps|
      invariant forall i :: 0 <= i < j ==> eps[i].url != url
    {
      if eps[j].url == url {
        found := true;
        break;
      }
      j := j + 1;
    }
  }

  /** The outer loop of Refresh: each fetched episode whose URL is not yet in the
      (growing) list is appended with its download flag set. */
  method MergeEpisodes(existing: seq<PodEpisode>, fetched: seq<PodEpisode>) returns (merged: seq<PodEpisode>)
    ensures merged == Merged(existing, fetched)
  {
    merged := existing;
    var k := 0;
    while k < |fetched|
      invariant 0 <= k <= |fetched|
      invariant merged == existing + NewEpisodes(URLs(existing), fetched[..k])
      invariant URLs(merged) == URLs(existing) + URLs(fetched[..k])
    {
      var episode, next := fetched[k], k + 1;
      var added := HasURL(merged, episode.url);
      assert fetched[..next] == fetched[..k] + [episode];
      MergeStep(existing, fetched[..k], episode, merged);
      if !added {
        var copy := episode.(shouldDownloadIfNotDownloaded := true);
        merged := merged + [copy];
      }
      k := next;
    }
    assert fetched[..k] == fetched;
  }

  // ---------------------------------------------------------------------------
  // Download selection
  // ---------------------------------------------------------------------------

  /** A request to fetch `url` into the local file `saveFile`. */
  datatype Download = Download(url: string, saveFile: string)

  /** An episode is handed to the downloader when it is flagged and its file is not
      among the files present. */
  predicate Selected(episode: PodEpisode, present: set<string>)
  {
    episode.shouldDownloadIfNotDownloaded && !Downloaded(episode, present)
  }

  /** The request made for an episode: its URL into its download path. */
  function DownloadOf(episode: PodEpisode): Download
  {
    Download(episode.url, DownloadedFilename(episode))
  }

  /** The requests the download loop makes over `eps`, in list order. */
  function Dispatches(eps: seq<PodEpisode>, present: set<string>): seq<Download>
  {
    if eps == [] then []
    else
      var last := eps[|eps| - 1];
      Dispatches(eps[..|eps| - 1], present) + (if Selected(last, present) then [DownloadOf(last)] else [])
  }

  /** Each request is made for a selected episode, the i-th. */
  lemma {:induction false} DispatchesSound(eps: seq<PodEpisode>, present: set<string>, d: Download)
    returns (i: nat)
    requires d in Dispatches(eps, present)
    ensures i < |eps| && Selected(eps[i], present) && d == DownloadOf(eps[i])
    decreases |eps|
  {
    var init := eps[..|eps| - 1];
    if d in Dispatches(init, present) {
      i := DispatchesSound(init, present, d);
      assert eps[i] == init[i];
    } else {
      i := |eps| - 1;
    }
  }

  /** Each selected episode is requested. */
  lemma {:induction false} DispatchesComplete(eps: seq<PodEpisode>, present: set<string>, i: nat)
    requires i < |eps| && Selected(eps[i], present)
    ensures DownloadOf(eps[i]) in Dispatches(eps, present)
    decreases |eps|
  {
    var init := eps[..|eps| - 1];
    if i < |init| {
      assert init[i] == eps[i];
      DispatchesComplete(init, present, i);
    }
  }

  /** The requests are exactly those for the selected episodes. */
  lemma DispatchesExactly(eps: seq<PodEpisode>, present: set<string>, d: Download)
    ensures d in Dispatches(eps, present) <==>
      exists i :: 0 <= i < |eps| && Selected(eps[i], present) && d == DownloadOf(eps[i])
  {
    if d in Dispatches(eps, present) {
      var i := DispatchesSound(eps, present, d);
    }
    if exists i :: 0 <= i < |eps| && Selected(eps[i], present) && d == DownloadOf(eps[i]) {
      var i :| 0 <= i < |eps| && Selected(eps[i], present) && d == DownloadOf(eps[i]);
      DispatchesComplete(eps, present, i);
    }
  }

  /** Every request saves into "downloads/", under a name with no '/', at a path that
      is not present. */
  lemma DispatchPaths(eps: seq<PodEpisode>, present: set<string>, d: Download)
    requires d in Dispatches(eps, present)
    ensures HasPrefix(d.saveFile, DownloadDir)
    ensures '/' !in d.saveFile[|DownloadDir|..]
    ensures d.saveFile !in present
  {
    var i := DispatchesSound(eps, present, d);
  }

  /** The download loop of Refresh. The flag is cleared only on the loop's copy of the
      episode, so the list itself is left as it is. */
  method DispatchDownloads(eps: seq<PodEpisode>, present: set<string>) returns (downloads: seq<Download>)
    ensures downloads == Dispatches(eps, present)
  {
    downloads := [];
    var k := 0;
    while k < |eps|
      invariant 0 <= k <= |eps|
      invariant downloads == Dispatches(eps[..k], present)
    {
      var episode := eps[k];
      assert eps[..k + 1][..k] == eps[..k];
      if episode.shouldDownloadIfNotDownloaded && !(DownloadedFilename(episode) in present) {
        var filename := PathFile(episode.url);
        episode := episode.(shouldDownloadIfNotDownloaded := false);
        downloads := downloads + [Download(episode.url, "downloads/" + filename)];
      }
      k := k + 1;
    }
    assert eps[..k] == eps;
  }
}
