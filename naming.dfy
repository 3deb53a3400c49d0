/**
  How catcher/catcher.go names a feed: its acronym (the upper-cased first character
  of each space-separated word of its title), the ID derived from that acronym and
  the number of feeds already holding it, and the path of a category.
*/
module Naming {
  import opened GoLib
  import opened CatcherTypes

  // ---------------------------------------------------------------------------
  // Acronym
  // ---------------------------------------------------------------------------

  /** The words of a title: its pieces between single spaces. */
  function Words(title: string): (words: seq<string>)
    ensures |words| >= 1
  {
    Split(title, ' ')
  }

  /** Acronym reads the first byte of every word, so it is defined only when no word
      is empty. */
  predicate AcronymDefined(title: string)
  {
    NoEmptyWord(Words(title))
  }

  /** Every word of the list is non-empty. */
  predicate NoEmptyWord(words: seq<string>)
  {
    forall i :: 0 <= i < |words| ==> words[i] != []
  }

  lemma NoEmptyWordCons(word: string, words: seq<string>)
    ensures NoEmptyWord([word] + words) <==> word != [] && NoEmptyWord(words)
  {
    var all := [word] + words;
    assert all[0] == word;
    assert forall i :: 0 <= i < |words| ==> all[i + 1] == words[i];
    if word != [] && NoEmptyWord(words) {
      forall i | 0 <= i < |all| ensures all[i] != [] {
        if i > 0 {
          assert all[i] == words[i - 1];
        }
      }
    }
  }

  /** A title whose words are all non-empty, in terms of its characters: it is
      non-empty, does not start or end with a space and has no two spaces in a row. */
  predicate WellSpaced(title: string)
  {
    title != [] && title[0] != ' ' && WordTail(title)
  }

  /** The text after the first character of a word: it does not end with a space and
      has no two spaces in a row. */
  predicate WordTail(s: string)
  {
    (s != [] ==> s[|s| - 1] != ' ') &&
    forall i :: 0 <= i < |s| - 1 && s[i] == ' ' ==> s[i + 1] != ' '
  }

  /** The initials of a title, read character by character: every non-space character
      at the start or right after a space, upper-cased. */
  function Initials(s: string, afterSpace: bool): string
  {
    if s == [] then []
    else if afterSpace && s[0] != ' ' then [ToUpperByte(s[0])] + Initials(s[1..], false)
    else Initials(s[1..], s[0] == ' ')
  }

  /** The acronym of a title. */
  function AcronymOf(title: string): string
  {
    Initials(title, true)
  }

  lemma WordTailCons(c: char, s: string)
    ensures WordTail([c] + s) <==>
      if c == ' ' then s != [] && s[0] != ' ' && WordTail(s) else WordTail(s)
  {
    var t := [c] + s;
    if s != [] {
      assert t[|t| - 1] == s[|s| - 1];
      assert t[1] == s[0];
    }
    if c == ' ' && s != [] && s[0] != ' ' && WordTail(s) {
      forall i | 0 <= i < |t| - 1 && t[i] == ' ' ensures t[i + 1] != ' ' {
        if i > 0 {
          assert t[i] == s[i - 1] && t[i + 1] == s[i];
        }
      }
    }
    if c != ' ' && WordTail(s) {
      forall i | 0 <= i < |t| - 1 && t[i] == ' ' ensures t[i + 1] != ' ' {
        assert t[i] == s[i - 1] && t[i + 1] == s[i];
      }
    }
    if WordTail(t) {
      forall i | 0 <= i < |s| - 1 && s[i] == ' ' ensures s[i + 1] != ' ' {
        assert t[i + 1] == s[i] && t[i + 2] == s[i + 1];
      }
      if c == ' ' {
        assert t[0] == ' ';
      }
    }
  }

  /** Which words are non-empty, in terms of the characters: all the words when
      `afterSpace`, all but the first otherwise. */
  lemma {:induction false} WordsNonEmpty(s: string, afterSpace: bool)
    ensures NoEmptyWord(if afterSpace then Split(s, ' ') else Split(s, ' ')[1..]) <==>
      if afterSpace then s != [] && s[0] != ' ' && WordTail(s) else WordTail(s)
    decreases |s|
  {
    if s == [] {
      assert Split(s, ' ') == [[]];
      NoEmptyWordCons([], []);
    } else {
      var c, rest := s[0], s[1..];
      assert s == [c] + rest;
      WordTailCons(c, rest);
      var r := Split(rest, ' ');
      if c == ' ' {
        assert Split(s, ' ') == [[]] + r;
        NoEmptyWordCons([], r);
        WordsNonEmpty(rest, true);
      } else {
        var words := Split(s, ' ');
        assert words == [[c] + r[0]] + r[1..];
        NoEmptyWordCons([c] + r[0], r[1..]);
        WordsNonEmpty(rest, false);
      }
    }
  }

  /** Acronym is defined exactly on well-spaced titles. */
  lemma AcronymDefinedIff(title: string)
    ensures AcronymDefined(title) <==> WellSpaced(title)
  {
    assert Words(title) == Split(title, ' ');
    WordsNonEmpty(title, true);
  }

  /** The upper-cased first characters of a list of words, skipping empty words. */
  function Heads(words: seq<string>): string
  {
    if words == [] then []
    else (if words[0] == [] then [] else [ToUpperByte(words[0][0])]) + Heads(words[1..])
  }

  /** With no empty word, there is one head per word, the first character of that
      word upper-cased. */
  lemma {:induction false} HeadsAt(words: seq<string>, i: nat)
    requires NoEmptyWord(words)
    requires i < |words|
    ensures |Heads(words)| == |words| && Heads(words)[i] == ToUpperByte(words[i][0])
    decreases i
  {
    HeadsLength(words);
    if i > 0 {
      HeadsAt(words[1..], i - 1);
    }
  }

  lemma {:induction false} HeadsLength(words: seq<string>)
    requires NoEmptyWord(words)
    ensures |Heads(words)| == |words|
    decreases |words|
  {
    if words != [] {
      HeadsLength(words[1..]);
    }
  }

  /** The initials read character by character are the heads of the words (all the
      words when `afterSpace`, all but the first otherwise), for every string. */
  lemma {:induction false} InitialsAreHeads(s: string, afterSpace: bool)
    ensures Initials(s, afterSpace) == Heads(if afterSpace then Split(s, ' ') else Split(s, ' ')[1..])
    decreases |s|
  {
    if s != [] {
      var c, rest := s[0], s[1..];
      var r := Split(rest, ' ');
      if c == ' ' {
        assert Split(s, ' ') == [""] + r;
        InitialsAreHeads(rest, true);
        assert Split(s, ' ')[1..] == r;
      } else {
        var words := Split(s, ' ');
        assert words == [[c] + r[0]] + r[1..];
        InitialsAreHeads(rest, false);
        assert words[1..] == r[1..];
      }
    }
  }

  /** Acronym: one character per word, the upper case of that word's first character.
      It is computed word by word, as the source does. */
  method Acronym(original: string) returns (acronym: string)
    requires AcronymDefined(original)
    ensures |acronym| == |Words(original)|
    ensures forall i :: 0 <= i < |acronym| ==> acronym[i] == ToUpperByte(Words(original)[i][0])
    ensures acronym == AcronymOf(original)
  {
    var buf := "";
    var textSplit := Split(original, ' ');
    assert textSplit == Words(original);
    var k := 0;
    while k < |textSplit|
      invariant 0 <= k <= |textSplit|
      invariant |buf| == k
      invariant forall i :: 0 <= i < k ==> buf[i] == ToUpperByte(textSplit[i][0])
    {
      var word := textSplit[k];
      var upperCase := ToUpperByte(word[0]);
      buf := buf + [upperCase];
      k := k + 1;
    }
    acronym := buf;
    InitialsAreHeads(original, true);
    HeadsLength(textSplit);
    forall i | 0 <= i < |acronym| ensures acronym[i] == Heads(textSplit)[i] {
      HeadsAt(textSplit, i);
    }
  }

  /** A word followed by more words contributes its upper-cased first character
      ahead of their acronym. */
  lemma AcronymOfCons(word: string, rest: string)
    requires word != [] && ' ' !in word
    ensures AcronymOf(word + [' '] + rest) == [ToUpperByte(word[0])] + AcronymOf(rest)
  {
    InitialsAreHeads(word + [' '] + rest, true);
    InitialsAreHeads(rest, true);
    SplitAppend(word, rest, ' ');
    SplitNoSep(word, ' ');
    assert Split(word + [' '] + rest, ' ') == [word] + Split(rest, ' ');
  }

  /** A single word's acronym is its upper-cased first character. */
  lemma AcronymOfWord(word: string)
    requires word != [] && ' ' !in word
    ensures AcronymOf(word) == [ToUpperByte(word[0])]
  {
    InitialsAreHeads(word, true);
    SplitNoSep(word, ' ');
  }

  /** The first example in the source's comment: "Programming Thomas" gives "PT". The
      literal comes in through a parameter so that the verifier does not unfold the
      recursive definitions on it before the proof's steps are in place. */
  lemma AcronymProgrammingThomas(title: string)
    requires title == "Programming Thomas"
    ensures AcronymOf(title) == "PT"
  {
    var programming, thomas := "Programming", "Thomas";
    assert title == programming + [' '] + thomas;
    AcronymOfCons(programming, thomas);
    AcronymOfWord(thomas);
  }

  /** The second example in the source's comment: "I like Google" gives "ILG". The
      literal is a parameter for the same reason as above. */
  lemma AcronymILikeGoogle(title: string)
    requires title == "I like Google"
    ensures AcronymOf(title) == "ILG"
  {
    var i, like, google := "I", "like", "Google";
    assert title == i + [' '] + (like + [' '] + google);
    AcronymOfCons(i, like + [' '] + google);
    AcronymOfCons(like, google);
    AcronymOfWord(google);
  }

  // ---------------------------------------------------------------------------
  // Feed IDs
  // ---------------------------------------------------------------------------

  /** The number of feeds with the given acronym. */
  function CountAcronym(podcasts: seq<PodFeed>, acronym: string): nat
  {
    if podcasts == [] then 0
    else
      CountAcronym(podcasts[..|podcasts| - 1], acronym) +
      (if podcasts[|podcasts| - 1].acronym == acronym then 1 else 0)
  }

  /** The ID given to a new feed with this acronym: the acronym itself when no feed
      has it, otherwise the acronym followed by one more than the number of feeds that
      have it. */
  function UniqueID(podcasts: seq<PodFeed>, acronym: string): string
  {
    var n := CountAcronym(podcasts, acronym);
    if n == 0 then acronym else acronym + FormatDecimal(n + 1)
  }

  /** No feed has the acronym exactly when the count is zero. */
  lemma {:induction false} CountAcronymZero(podcasts: seq<PodFeed>, acronym: string)
    ensures CountAcronym(podcasts, acronym) == 0 <==>
      forall i :: 0 <= i < |podcasts| ==> podcasts[i].acronym != acronym
    decreases |podcasts|
  {
    if podcasts != [] {
      var init := podcasts[..|podcasts| - 1];
      CountAcronymZero(init, acronym);
      assert forall i :: 0 <= i < |init| ==> init[i] == podcasts[i];
    }
  }

  /** A longer prefix counts at least as many feeds, and one more past a feed with the
      acronym. */
  lemma {:induction false} CountAcronymGrows(podcasts: seq<PodFeed>, i: nat, j: nat, acronym: string)
    requires i < j <= |podcasts| && podcasts[i].acronym == acronym
    ensures CountAcronym(podcasts[..i], acronym) < CountAcronym(podcasts[..j], acronym)
    decreases j
  {
    assert podcasts[..j][..j - 1] == podcasts[..j - 1];
    if j - 1 > i {
      CountAcronymGrows(podcasts, i, j - 1, acronym);
    } else {
      assert podcasts[..j][j - 1] == podcasts[i];
    }
  }

  /** The ID starts with the acronym, and equals it exactly when no feed has that
      acronym. */
  lemma UniqueIDShape(podcasts: seq<PodFeed>, acronym: string)
    ensures HasPrefix(UniqueID(podcasts, acronym), acronym)
    ensures UniqueID(podcasts, acronym) == acronym <==>
      forall i :: 0 <= i < |podcasts| ==> podcasts[i].acronym != acronym
  {
    CountAcronymZero(podcasts, acronym);
    var id := UniqueID(podcasts, acronym);
    assert id[..|acronym|] == acronym;
  }

  /** Every feed's ID was derived, when it was added, from the feeds before it. */
  predicate IDsByRegistration(podcasts: seq<PodFeed>)
  {
    forall i :: 0 <= i < |podcasts| ==> podcasts[i].id == UniqueID(podcasts[..i], podcasts[i].acronym)
  }

  /** The acronym with a decimal suffix is neither the bare acronym nor the acronym
      with another suffix. */
  lemma SuffixedIDsDiffer(a: string, m: nat, n: nat)
    ensures a + FormatDecimal(n) != a
    ensures m != n ==> a + FormatDecimal(m) != a + FormatDecimal(n)
  {
    var dm, dn := FormatDecimal(m), FormatDecimal(n);
    assert |a + dn| == |a| + |dn|;
    if a + dm == a + dn {
      assert dm == (a + dm)[|a|..];
      assert dn == (a + dn)[|a|..];
      FormatDecimalInjective(m, n);
    }
  }

  /** Feeds registered one after the other with the same acronym receive distinct IDs. */
  lemma SameAcronymDistinctIDs(podcasts: seq<PodFeed>, i: nat, j: nat)
    requires IDsByRegistration(podcasts)
    requires i < j < |podcasts| && podcasts[i].acronym == podcasts[j].acronym
    ensures podcasts[i].id != podcasts[j].id
  {
    var a := podcasts[i].acronym;
    var m, n := CountAcronym(podcasts[..i], a), CountAcronym(podcasts[..j], a);
    CountAcronymGrows(podcasts, i, j, a);
    assert podcasts[j].id == a + FormatDecimal(n + 1);
    SuffixedIDsDiffer(a, m + 1, n + 1);
  }

  /** IDs are not unique across acronyms: after two "PT" feeds (IDs "PT" and "PT2") a
      feed with acronym "PT2" also receives "PT2". */
  lemma UniqueIDCanCollide(first: PodFeed, second: PodFeed)
    requires first.acronym == "PT" && first.id == "PT"
    requires second.acronym == "PT" && second.id == "PT2"
    ensures IDsByRegistration([first, second])
    ensures UniqueID([first, second], "PT2") == second.id
  {
    var ps := [first, second];
    assert ps[..0] == [] && ps[..1] == [first] && ps[..2] == ps;
    assert [first][..0] == [];
    assert CountAcronym([], "PT") == 0;
    assert CountAcronym([first], "PT") == 1;
    assert FormatDecimal(2) == "2";
    assert UniqueID([first], "PT") == "PT2";
    assert CountAcronym([first], "PT2") == 0;
    assert CountAcronym(ps, "PT2") == 0;
  }

  // ---------------------------------------------------------------------------
  // Categories
  // ---------------------------------------------------------------------------

  /** The path a feed stores for a category: "Text/Sub" when there is a sub-category,
      otherwise "Text". */
  function CategoryPath(category: Category): string
  {
    if category.subCategoryText != "" then category.text + "/" + category.subCategoryText
    else category.text
  }

  /** When the texts hold no '/', a category path splits back into the category's text
      and (when present) its sub-category text. */
  lemma CategoryPathSplit(category: Category)
    requires '/' !in category.text && '/' !in category.subCategoryText
    ensures category.subCategoryText != "" ==>
      Split(CategoryPath(category), '/') == [category.text, category.subCategoryText]
    ensures category.subCategoryText == "" ==>
      Split(CategoryPath(category), '/') == [category.text]
  {
    SplitNoSep(category.text, '/');
    SplitNoSep(category.subCategoryText, '/');
    if category.subCategoryText != "" {
      SplitAppend(category.text, category.subCategoryText, '/');
    }
  }
}
