/**
  The conversation list of the chat sidebar: the search filter and its
  name-first ranking, the highlighting of the query inside a row, and the
  test that marks the row of the open conversation.
 */
module Sidebar {
  import opened Wrappers
  import opened Strings
  import opened Arrays

  /** A conversation as the conversation query delivers it (the fields the list logic reads). */
  datatype Conversation = Conversation(id: string, name: string, lastMessage: string)

  // ----- search -----

  /** The lower-cased name contains the lower-cased query. */
  predicate NameMatch(c: Conversation, query: string, fold: char -> char)
    ensures NameMatch(c, query, fold) <==> Occurs(Lower(query, fold), Lower(c.name, fold))
  {
    IncludesIsOccurs(Lower(c.name, fold), Lower(query, fold));
    Includes(Lower(c.name, fold), Lower(query, fold))
  }

  /** The lower-cased last message contains the lower-cased query. */
  predicate MessageMatch(c: Conversation, query: string, fold: char -> char)
    ensures MessageMatch(c, query, fold) <==> Occurs(Lower(query, fold), Lower(c.lastMessage, fold))
  {
    IncludesIsOccurs(Lower(c.lastMessage, fold), Lower(query, fold));
    Includes(Lower(c.lastMessage, fold), Lower(query, fold))
  }

  /** The filter callback: a match on the name or on the last message. */
  predicate Matches(c: Conversation, query: string, fold: char -> char)
    ensures Matches(c, query, fold) <==>
      Occurs(Lower(query, fold), Lower(c.name, fold)) || Occurs(Lower(query, fold), Lower(c.lastMessage, fold))
  {
    NameMatch(c, query, fold) || MessageMatch(c, query, fold)
  }

  /** A conversation that matches on its last message but not on its name. */
  predicate MessageOnly(c: Conversation, query: string, fold: char -> char) {
    !NameMatch(c, query, fold) && MessageMatch(c, query, fold)
  }

  /** The sort comparator: name matches first, every other pair compares equal. */
  function Compare(a: Conversation, b: Conversation, query: string, fold: char -> char): (r: int)
    ensures r == 0 <==> (NameMatch(a, query, fold) <==> NameMatch(b, query, fold))
    ensures r < 0 <==> NameMatch(a, query, fold) && !NameMatch(b, query, fold)
    ensures r > 0 <==> !NameMatch(a, query, fold) && NameMatch(b, query, fold)
  {
    var aNameMatch := NameMatch(a, query, fold);
    var bNameMatch := NameMatch(b, query, fold);
    if aNameMatch && !bNameMatch then -1
    else if !aNameMatch && bNameMatch then 1
    else 0
  }

  function ByMatch(query: string, fold: char -> char): Conversation -> bool {
    c => Matches(c, query, fold)
  }

  function ByName(query: string, fold: char -> char): Conversation -> bool {
    c => NameMatch(c, query, fold)
  }

  function ByNotName(query: string, fold: char -> char): Conversation -> bool {
    c => !NameMatch(c, query, fold)
  }

  function ByMessageOnly(query: string, fold: char -> char): Conversation -> bool {
    c => MessageOnly(c, query, fold)
  }

  function NameFirst(query: string, fold: char -> char): (Conversation, Conversation) -> int {
    (a, b) => Compare(a, b, query, fold)
  }

  /** `conversations.filter(matches).sort(nameFirst)` for a non-empty query. */
  function Search(convs: seq<Conversation>, query: string, fold: char -> char): (r: seq<Conversation>)
    ensures multiset(r) == multiset(Filter(convs, ByMatch(query, fold)))
  {
    SortBy(Filter(convs, ByMatch(query, fold)), NameFirst(query, fold))
  }

  /**
    The memoised list the sidebar renders: the conversations unchanged for an
    empty query, nothing while the conversations are not loaded, and otherwise
    the name matches followed by the last-message-only matches, each group in
    the order of the input.
   */
  function FilteredConversations(convs: Option<seq<Conversation>>, query: string, fold: char -> char)
    : (r: Option<seq<Conversation>>)
    ensures query == [] ==> r == convs
    ensures query != [] ==> (r.Some? <==> convs.Some?)
    ensures query != [] && convs.Some? ==>
      r.value == Filter(convs.value, ByName(query, fold)) + Filter(convs.value, ByMessageOnly(query, fold))
  {
    if query == [] then convs
    else
      match convs
      case None => None
      case Some(cs) =>
        SearchIsPartition(cs, query, fold);
        Some(Search(cs, query, fold))
  }

  /** The source's comparator is the key-first comparator for name matches. */
  lemma CompareIsNameFirst(query: string, fold: char -> char)
    ensures KeyFirst(NameFirst(query, fold), ByName(query, fold), ByNotName(query, fold))
  {
  }

  /** The search result is the name matches followed by the last-message-only matches. */
  lemma SearchIsPartition(s: seq<Conversation>, query: string, fold: char -> char)
    ensures Search(s, query, fold) == Filter(s, ByName(query, fold)) + Filter(s, ByMessageOnly(query, fold))
  {
    var kept := Filter(s, ByMatch(query, fold));
    CompareIsNameFirst(query, fold);
    SortByKeyFirst(kept, NameFirst(query, fold), ByName(query, fold), ByNotName(query, fold));
    FilterFilter(s, ByMatch(query, fold), ByName(query, fold), ByName(query, fold));
    FilterFilter(s, ByMatch(query, fold), ByNotName(query, fold), ByMessageOnly(query, fold));
  }

  /** Every conversation the search returns contains the query, case-insensitively, in its name or last message. */
  lemma SearchOnlyMatches(convs: seq<Conversation>, query: string, fold: char -> char)
    ensures var r := Search(convs, query, fold);
      forall i :: 0 <= i < |r| ==>
        Occurs(Lower(query, fold), Lower(r[i].name, fold)) ||
        Occurs(Lower(query, fold), Lower(r[i].lastMessage, fold))
  {
    var r := Search(convs, query, fold);
    var names := Filter(convs, ByName(query, fold));
    var others := Filter(convs, ByMessageOnly(query, fold));
    SearchIsPartition(convs, query, fold);
    forall i | 0 <= i < |r|
      ensures Occurs(Lower(query, fold), Lower(r[i].name, fold)) ||
              Occurs(Lower(query, fold), Lower(r[i].lastMessage, fold))
    {
      if i < |names| {
        assert r[i] == names[i] && ByName(query, fold)(names[i]);
        IncludesIsOccurs(Lower(r[i].name, fold), Lower(query, fold));
      } else {
        assert r[i] == others[i - |names|] && ByMessageOnly(query, fold)(others[i - |names|]);
        IncludesIsOccurs(Lower(r[i].lastMessage, fold), Lower(query, fold));
      }
    }
  }

  /**
    The search drops no matching conversation and duplicates none: it returns
    each matching conversation exactly as often as the input holds it, so it
    is never longer than the input.
   */
  lemma SearchKeepsMatches(convs: seq<Conversation>, query: string, fold: char -> char)
    ensures var r := Search(convs, query, fold);
      && (forall c :: multiset(r)[c] == if Matches(c, query, fold) then multiset(convs)[c] else 0)
      && |r| <= |convs|
  {
    var r := Search(convs, query, fold);
    var kept := Filter(convs, ByMatch(query, fold));
    FilterCounts(convs, ByMatch(query, fold));
    assert multiset(r) == multiset(kept);
    assert |r| == |kept| by {
      assert |multiset(r)| == |multiset(kept)|;
    }
  }

  /**
    Every name match precedes every conversation that matches only on its last
    message, and each of the two groups keeps the order of the input.
   */
  lemma SearchOrder(convs: seq<Conversation>, query: string, fold: char -> char)
    ensures var r := Search(convs, query, fold);
      && (forall i, j :: 0 <= i < j < |r| && NameMatch(r[j], query, fold) ==> NameMatch(r[i], query, fold))
      && Filter(r, ByName(query, fold)) == Filter(convs, ByName(query, fold))
      && Filter(r, ByMessageOnly(query, fold)) == Filter(convs, ByMessageOnly(query, fold))
  {
    SearchIsPartition(convs, query, fold);
    GroupsKeepOrder(convs, ByName(query, fold), ByMessageOnly(query, fold));
    var r := Search(convs, query, fold);
    forall i, j | 0 <= i < j < |r| && NameMatch(r[j], query, fold) ensures NameMatch(r[i], query, fold) {
      assert ByName(query, fold)(r[j]);
    }
  }

  /**
    Any order that puts the name matches first, keeps the name matches in input
    order and lists after them exactly the last-message-only matches in input
    order is the search result: every stable sort by the comparator agrees.
   */
  lemma StableNameFirstIsUnique(convs: seq<Conversation>, query: string, fold: char -> char, r: seq<Conversation>)
    requires forall i, j :: 0 <= i < j < |r| && NameMatch(r[j], query, fold) ==> NameMatch(r[i], query, fold)
    requires Filter(r, ByName(query, fold)) == Filter(convs, ByName(query, fold))
    requires Filter(r, ByNotName(query, fold)) == Filter(convs, ByMessageOnly(query, fold))
    ensures r == Search(convs, query, fold)
  {
    PartitionedIsFilters(r, ByName(query, fold), ByNotName(query, fold));
    SearchIsPartition(convs, query, fold);
  }

  // ----- highlighting -----

  /** A rendered piece of a row's text, marked when it is shown highlighted. */
  datatype Piece = Piece(text: string, highlighted: bool)

  /** The query occurs at index `i` of `text`, compared case-insensitively. */
  predicate MatchAt(text: string, query: string, i: nat, fold: char -> char) {
    i + |query| <= |text| && FoldEq(text[i..i + |query|], query, fold)
  }

  /** The first index at or after `from` where the query matches, as the regular-expression search finds it. */
  function FirstMatch(text: string, query: string, fold: char -> char, from: nat): (r: Option<nat>)
    requires query != []
    ensures r.Some? ==> from <= r.value && MatchAt(text, query, r.value, fold)
    ensures r.Some? ==> forall j: nat :: from <= j < r.value ==> !MatchAt(text, query, j, fold)
    ensures r.None? ==> forall j: nat :: from <= j ==> !MatchAt(text, query, j, fold)
    decreases |text| - from
  {
    if from + |query| > |text| then None
    else if MatchAt(text, query, from, fold) then Some(from)
    else FirstMatch(text, query, fold, from + 1)
  }

  /**
    `text.split(/(query)/gi)` from index `from` on, for a query without
    regular-expression metacharacters: the text before each leftmost
    non-overlapping match, then the matched text (the captured group), and
    finally the rest of the text.
   */
  function SplitAround(text: string, query: string, fold: char -> char, from: nat): (parts: seq<string>)
    requires query != [] && from <= |text|
    ensures |parts| >= 1
    decreases |text| - from
  {
    match FirstMatch(text, query, fold, from)
    case None => [text[from..]]
    case Some(i) => [text[from..i], text[i..i + |query|]] + SplitAround(text, query, fold, i + |query|)
  }

  /** The concatenation of a list of strings. */
  function Concat(parts: seq<string>): string {
    if parts == [] then [] else parts[0] + Concat(parts[1..])
  }

  /** The texts of the rendered pieces, in order. */
  function Texts(pieces: seq<Piece>): seq<string> {
    seq(|pieces|, k requires 0 <= k < |pieces| => pieces[k].text)
  }

  /**
    HighlightText: the text as one plain piece for an empty query; otherwise
    the parts of the split, each highlighted when it equals the query
    case-insensitively.
   */
  function Highlight(text: string, query: string, fold: char -> char): (pieces: seq<Piece>)
    ensures |pieces| >= 1
    ensures query == [] ==> pieces == [Piece(text, false)]
    ensures forall k :: 0 <= k < |pieces| && pieces[k].highlighted ==> Lower(pieces[k].text, fold) == Lower(query, fold)
  {
    if query == [] then [Piece(text, false)]
    else
      var parts := SplitAround(text, query, fold, 0);
      seq(|parts|, k requires 0 <= k < |parts| => Piece(parts[k], Lower(parts[k], fold) == Lower(query, fold)))
  }

  /** One step of the split: the text before the first match, the match, and the split of the rest. */
  lemma SplitAroundStep(text: string, query: string, fold: char -> char, from: nat, i: nat)
    requires query != [] && from <= |text|
    requires FirstMatch(text, query, fold, from) == Some(i)
    ensures from <= i && i + |query| <= |text|
    ensures SplitAround(text, query, fold, from)
            == [text[from..i], text[i..i + |query|]] + SplitAround(text, query, fold, i + |query|)
  {
    assert MatchAt(text, query, i, fold);
  }

  /** The split parts, concatenated, give back the text from `from` on. */
  lemma {:induction false} SplitAroundConcat(text: string, query: string, fold: char -> char, from: nat)
    requires query != [] && from <= |text|
    ensures Concat(SplitAround(text, query, fold, from)) == text[from..]
    decreases |text| - from
  {
    match FirstMatch(text, query, fold, from)
    case None =>
      ConcatSingle(SplitAround(text, query, fold, from), text[from..]);
    case Some(i) =>
      var j := i + |query|;
      ConcatStep(text, query, fold, from, i);
      SplitAroundConcat(text, query, fold, j);
      Arrays.SlicesJoin(text, from, i, j);
  }

  /** A single part concatenates to itself. */
  lemma ConcatSingle(parts: seq<string>, a: string)
    requires parts == [a]
    ensures Concat(parts) == a
  {
    assert parts[1..] == [];
  }

  /** One step of the split, concatenated. */
  lemma ConcatStep(text: string, query: string, fold: char -> char, from: nat, i: nat)
    requires query != [] && from <= |text|
    requires FirstMatch(text, query, fold, from) == Some(i)
    ensures from <= i && i + |query| <= |text|
    ensures Concat(SplitAround(text, query, fold, from))
            == text[from..i] + (text[i..i + |query|] + Concat(SplitAround(text, query, fold, i + |query|)))
  {
    SplitAroundStep(text, query, fold, from, i);
    ConcatPair(SplitAround(text, query, fold, from), text[from..i], text[i..i + |query|],
               SplitAround(text, query, fold, i + |query|));
  }

  /** Concatenating two parts in front of the rest. */
  lemma ConcatPair(parts: seq<string>, a: string, m: string, rest: seq<string>)
    requires parts == [a, m] + rest
    ensures Concat(parts) == a + (m + Concat(rest))
  {
    assert parts[1..] == [m] + rest;
    assert parts[1..][1..] == rest;
  }

  /** A stretch of text in which no match starts contains no occurrence of the query. */
  lemma NoMatchNoOccurrence(text: string, query: string, fold: char -> char, from: nat, to: nat)
    requires query != [] && from <= to <= |text|
    requires forall j: nat :: from <= j < to ==> !MatchAt(text, query, j, fold)
    ensures !Occurs(Lower(query, fold), Lower(text[from..to], fold))
  {
    var piece := Lower(text[from..to], fold);
    var q := Lower(query, fold);
    if Occurs(q, piece) {
      var m :| SliceAt(q, piece, m);
      OccurrenceIsMatch(text, query, fold, from, to, m);
      assert false;
    }
  }

  /** An occurrence of the folded query in a folded stretch of text is a match of the text. */
  lemma OccurrenceIsMatch(text: string, query: string, fold: char -> char, from: nat, to: nat, m: int)
    requires from <= to <= |text|
    requires SliceAt(Lower(query, fold), Lower(text[from..to], fold), m)
    ensures from <= from + m < to || query == []
    ensures MatchAt(text, query, from + m, fold)
  {
    var piece := text[from..to];
    LowerSlice(piece, m, m + |query|, fold);
    assert Lower(piece, fold)[m..m + |query|] == Lower(query, fold);
    SubSlice(text, from, to, m, |query|);
    FoldEqOfEqual(piece[m..m + |query|], text[from + m..from + m + |query|],
                  Lower(piece, fold)[m..m + |query|], query, fold);
  }

  /** Equal texts fold alike. */
  lemma FoldEqOfEqual(x: string, y: string, lowered: string, query: string, fold: char -> char)
    requires x == y && Lower(x, fold) == lowered && lowered == Lower(query, fold)
    ensures FoldEq(y, query, fold)
  {
    FoldEqIsLowerEq(y, query, fold);
  }

  /** A slice of a slice is a slice. */
  lemma SubSlice(s: string, from: nat, to: nat, i: nat, len: nat)
    requires from <= to <= |s| && i + len <= to - from
    ensures s[from..to][i..i + len] == s[from + i..from + i + len]
  {
    var inner, outer := s[from..to][i..i + len], s[from + i..from + i + len];
    forall k | 0 <= k < len
      ensures inner[k] == outer[k]
    {
      assert inner[k] == s[from + i + k];
    }
  }

  /** The split has one more text part than it has matches: an odd number of parts. */
  lemma {:induction false} SplitAroundOdd(text: string, query: string, fold: char -> char, from: nat)
    requires query != [] && from <= |text|
    ensures |SplitAround(text, query, fold, from)| % 2 == 1
    decreases |text| - from
  {
    match FirstMatch(text, query, fold, from)
    case None =>
    case Some(i) =>
      SplitAroundStep(text, query, fold, from, i);
      SplitAroundOdd(text, query, fold, i + |query|);
      ParityShift(|SplitAround(text, query, fold, from)|);
  }

  /** Two positions apart have the same parity. */
  lemma ParityShift(k: int)
    requires k >= 2
    ensures k % 2 == (k - 2) % 2
  {
  }

  /**
    The parts alternate: those at odd positions equal the query
    case-insensitively, those at even positions contain no occurrence of it.
   */
  ghost predicate Alternates(parts: seq<string>, query: string, fold: char -> char) {
    && (forall k :: 0 <= k < |parts| && k % 2 == 1 ==> Lower(parts[k], fold) == Lower(query, fold))
    && (forall k :: 0 <= k < |parts| && k % 2 == 0 ==> !Occurs(Lower(query, fold), Lower(parts[k], fold)))
  }

  /** A single part without an occurrence of the query alternates. */
  lemma AlternatesSingle(parts: seq<string>, a: string, query: string, fold: char -> char)
    requires parts == [a]
    requires !Occurs(Lower(query, fold), Lower(a, fold))
    ensures Alternates(parts, query, fold)
  {
  }

  /** Alternating parts stay alternating behind a query-free text and a match. */
  lemma AlternatesCons(parts: seq<string>, a: string, m: string, rest: seq<string>, query: string, fold: char -> char)
    requires parts == [a, m] + rest
    requires !Occurs(Lower(query, fold), Lower(a, fold))
    requires Lower(m, fold) == Lower(query, fold)
    requires Alternates(rest, query, fold)
    ensures Alternates(parts, query, fold)
  {
    forall k | 0 <= k < |parts| && k % 2 == 1
      ensures Lower(parts[k], fold) == Lower(query, fold)
    {
      if k >= 2 {
        ParityShift(k);
        assert parts[k] == rest[k - 2];
      }
    }
    forall k | 0 <= k < |parts| && k % 2 == 0
      ensures !Occurs(Lower(query, fold), Lower(parts[k], fold))
    {
      if k >= 2 {
        ParityShift(k);
        assert parts[k] == rest[k - 2];
      }
    }
  }

  /** The split alternates between text free of the query and the matches of the query. */
  lemma {:induction false} SplitAroundParts(text: string, query: string, fold: char -> char, from: nat)
    requires query != [] && from <= |text|
    ensures Alternates(SplitAround(text, query, fold, from), query, fold)
    decreases |text| - from
  {
    var parts := SplitAround(text, query, fold, from);
    match FirstMatch(text, query, fold, from)
    case None =>
      NoMatchNoOccurrence(text, query, fold, from, |text|);
      assert text[from..|text|] == text[from..];
      AlternatesSingle(parts, text[from..], query, fold);
    case Some(i) =>
      var j := i + |query|;
      SplitAroundStep(text, query, fold, from, i);
      SplitAroundParts(text, query, fold, j);
      NoMatchNoOccurrence(text, query, fold, from, i);
      FoldEqIsLowerEq(text[i..j], query, fold);
      AlternatesCons(parts, text[from..i], text[i..j], SplitAround(text, query, fold, j), query, fold);
  }

  /**
    The splitting rule of `String.prototype.split` with a regular expression,
    stated on the parts: from `from` on, either no match starts anywhere and
    the rest of the text is the last part, or the parts are the text up to the
    leftmost match, that match, and the parts of the split resumed right after
    it. No match is taken that starts inside a text part.
   */
  ghost predicate LeftmostSplit(text: string, query: string, fold: char -> char, from: nat, parts: seq<string>)
    decreases |parts|
  {
    && from <= |text|
    && |parts| >= 1
    && if |parts| == 1 then
         && parts[0] == text[from..]
         && (forall j: nat :: from <= j ==> !MatchAt(text, query, j, fold))
       else
         && |parts| >= 3
         && var i := from + |parts[0]|;
            && i + |query| <= |text|
            && parts[0] == text[from..i]
            && parts[1] == text[i..i + |query|]
            && MatchAt(text, query, i, fold)
            && (forall j: nat :: from <= j < i ==> !MatchAt(text, query, j, fold))
            && LeftmostSplit(text, query, fold, i + |query|, parts[2..])
  }

  /** The split takes the leftmost match each time and resumes right after it. */
  lemma {:induction false} SplitAroundLeftmost(text: string, query: string, fold: char -> char, from: nat)
    requires query != [] && from <= |text|
    ensures LeftmostSplit(text, query, fold, from, SplitAround(text, query, fold, from))
    decreases |text| - from
  {
    var parts := SplitAround(text, query, fold, from);
    match FirstMatch(text, query, fold, from)
    case None =>
      assert parts == [text[from..]];
    case Some(i) =>
      var j := i + |query|;
      SplitAroundStep(text, query, fold, from, i);
      SplitAroundLeftmost(text, query, fold, j);
      LeftmostCons(text, query, fold, from, i, parts, SplitAround(text, query, fold, j));
  }

  /** The text before the leftmost match and the match, in front of a leftmost split of the rest. */
  lemma LeftmostCons(text: string, query: string, fold: char -> char, from: nat, i: nat, parts: seq<string>, rest: seq<string>)
    requires from <= i && i + |query| <= |text|
    requires parts == [text[from..i], text[i..i + |query|]] + rest
    requires MatchAt(text, query, i, fold)
    requires forall j: nat :: from <= j < i ==> !MatchAt(text, query, j, fold)
    requires LeftmostSplit(text, query, fold, i + |query|, rest)
    ensures LeftmostSplit(text, query, fold, from, parts)
  {
    assert parts[2..] == rest;
    assert from + |parts[0]| == i;
  }

  /** The leftmost match is determined by the matching positions. */
  lemma FirstMatchIs(text: string, query: string, fold: char -> char, from: nat, i: nat)
    requires query != [] && from <= i
    requires MatchAt(text, query, i, fold)
    requires forall j: nat :: from <= j < i ==> !MatchAt(text, query, j, fold)
    ensures FirstMatch(text, query, fold, from) == Some(i)
  {
  }

  /** The splitting rule has exactly one solution: the split. */
  lemma {:induction false} LeftmostSplitUnique(text: string, query: string, fold: char -> char, from: nat, parts: seq<string>)
    requires query != []
    requires LeftmostSplit(text, query, fold, from, parts)
    ensures parts == SplitAround(text, query, fold, from)
    decreases |parts|
  {
    if |parts| == 1 {
      LeftmostSingle(text, query, fold, from, parts);
    } else {
      var i := LeftmostStep(text, query, fold, from, parts);
      LeftmostSplitUnique(text, query, fold, i + |query|, parts[2..]);
      LeftmostUniqueStep(text, query, fold, from, parts, i);
    }
  }

  /** The first match of a leftmost split with more than one part is the split's first match. */
  lemma LeftmostUniqueStep(text: string, query: string, fold: char -> char, from: nat, parts: seq<string>, i: nat)
    requires query != [] && from <= i && i + |query| <= |text| && |parts| >= 3
    requires parts[0] == text[from..i] && parts[1] == text[i..i + |query|]
    requires MatchAt(text, query, i, fold)
    requires forall j: nat :: from <= j < i ==> !MatchAt(text, query, j, fold)
    requires parts[2..] == SplitAround(text, query, fold, i + |query|)
    ensures parts == SplitAround(text, query, fold, from)
  {
    var j := i + |query|;
    FirstMatchIs(text, query, fold, from, i);
    SplitAroundStep(text, query, fold, from, i);
    PartsCons(parts, text[from..i], text[i..j], SplitAround(text, query, fold, j));
  }

  /** A leftmost split of one part is the split: no match is left, so the rest of the text is the one part. */
  lemma LeftmostSingle(text: string, query: string, fold: char -> char, from: nat, parts: seq<string>)
    requires query != []
    requires LeftmostSplit(text, query, fold, from, parts) && |parts| == 1
    ensures parts == SplitAround(text, query, fold, from)
  {
    assert parts == [text[from..]];
    assert FirstMatch(text, query, fold, from).None?;
  }

  /** The conjuncts of a leftmost split with more than one part, with the match position named. */
  lemma LeftmostStep(text: string, query: string, fold: char -> char, from: nat, parts: seq<string>) returns (i: nat)
    requires LeftmostSplit(text, query, fold, from, parts) && |parts| != 1
    ensures from <= i && i + |query| <= |text| && |parts| >= 3
    ensures parts[0] == text[from..i] && parts[1] == text[i..i + |query|]
    ensures MatchAt(text, query, i, fold)
    ensures forall j: nat :: from <= j < i ==> !MatchAt(text, query, j, fold)
    ensures LeftmostSplit(text, query, fold, i + |query|, parts[2..])
  {
    i := from + |parts[0]|;
  }

  /** A sequence of at least two parts is its first two parts in front of the rest. */
  lemma PartsCons(parts: seq<string>, a: string, m: string, rest: seq<string>)
    requires |parts| >= 2 && parts[0] == a && parts[1] == m && parts[2..] == rest
    ensures parts == [a, m] + rest
  {
    assert parts == [parts[0], parts[1]] + parts[2..];
  }

  /** The rendered pieces of a non-empty query are the parts the splitting rule determines. */
  lemma HighlightLeftmost(text: string, query: string, fold: char -> char, parts: seq<string>)
    requires query != []
    ensures LeftmostSplit(text, query, fold, 0, Texts(Highlight(text, query, fold)))
    ensures LeftmostSplit(text, query, fold, 0, parts) ==> parts == Texts(Highlight(text, query, fold))
  {
    assert Texts(Highlight(text, query, fold)) == SplitAround(text, query, fold, 0);
    SplitAroundLeftmost(text, query, fold, 0);
    if LeftmostSplit(text, query, fold, 0, parts) {
      LeftmostSplitUnique(text, query, fold, 0, parts);
    }
  }

  /** Concatenating the rendered pieces reproduces the text; an empty query renders it as one plain piece. */
  lemma HighlightRoundTrip(text: string, query: string, fold: char -> char)
    ensures Concat(Texts(Highlight(text, query, fold))) == text
    ensures query == [] ==> Highlight(text, query, fold) == [Piece(text, false)]
  {
    var pieces := Highlight(text, query, fold);
    if query == [] {
      assert Texts(pieces) == [text];
      assert Concat([text][1..]) == [];
    } else {
      SplitAroundConcat(text, query, fold, 0);
      assert Texts(pieces) == SplitAround(text, query, fold, 0);
    }
  }

  /**
    For a non-empty query, a piece is highlighted exactly when it equals the
    query case-insensitively, which is exactly at the matches: the pieces
    alternate between unhighlighted text that contains no occurrence of the
    query and highlighted matches.
   */
  lemma HighlightMarksMatches(text: string, query: string, fold: char -> char)
    requires query != []
    ensures var pieces := Highlight(text, query, fold);
      && |pieces| % 2 == 1
      && (forall k :: 0 <= k < |pieces| ==>
            (pieces[k].highlighted <==> Lower(pieces[k].text, fold) == Lower(query, fold)))
      && (forall k :: 0 <= k < |pieces| ==> (pieces[k].highlighted <==> k % 2 == 1))
      && (forall k :: 0 <= k < |pieces| && !pieces[k].highlighted ==>
            !Occurs(Lower(query, fold), Lower(pieces[k].text, fold)))
  {
    SplitAroundOdd(text, query, fold, 0);
    SplitAroundParts(text, query, fold, 0);
    var parts := SplitAround(text, query, fold, 0);
    forall k | 0 <= k < |parts| && k % 2 == 0
      ensures Lower(parts[k], fold) != Lower(query, fold)
    {
      OccursInSelf(Lower(parts[k], fold));
    }
  }

  // ----- the open conversation -----

  /** The row of `chatId` is drawn active: the third `/`-separated piece of the path is the chat id. */
  predicate IsActive(pathname: string, chatId: string)
    ensures IsActive(pathname, chatId) ==> '/' !in chatId
  {
    var parts := Split(pathname, '/');
    |parts| > 2 && parts[2] == chatId
  }

  /** `pathname` is `a/b/chatId` followed by nothing or by a further `/...`, with `a`, `b`, `chatId` free of `/`. */
  predicate SegmentLayout(pathname: string, a: string, b: string, chatId: string, rest: string) {
    && '/' !in a && '/' !in b && '/' !in chatId
    && (rest == [] || rest[0] == '/')
    && pathname == a + "/" + b + "/" + chatId + rest
  }

  /** A path laid out as `a/b/chatId` plus nothing or `/...` marks the row of `chatId` active. */
  lemma LayoutIsActive(pathname: string, a: string, b: string, chatId: string, rest: string)
    requires SegmentLayout(pathname, a, b, chatId, rest)
    ensures IsActive(pathname, chatId)
  {
    var idPart := chatId + rest;
    SplitFirstPiece(chatId, '/', rest);
    SplitCons(b, '/', idPart);
    SplitCons(a, '/', b + "/" + idPart);
    Arrays.AppendAssoc(a + "/", b + "/", chatId + rest);
    Arrays.AppendAssoc(a + "/" + (b + "/"), chatId, rest);
    Arrays.AppendAssoc(a + "/", b, "/");
    var parts := Split(pathname, '/');
    assert parts == [a] + ([b] + Split(idPart, '/'));
    assert parts[2] == Split(idPart, '/')[0];
  }

  /** An active row's id is the segment after the second `/` of the path. */
  lemma ActiveHasLayout(pathname: string, chatId: string)
    requires IsActive(pathname, chatId)
    ensures exists a, b, rest :: SegmentLayout(pathname, a, b, chatId, rest)
  {
    var parts := Split(pathname, '/');
    var rest := if |parts| == 3 then [] else "/" + Join(parts[3..], '/');
    JoinSplit(pathname, '/');
    JoinThree(parts, '/');
    Arrays.AppendAssoc(parts[0] + "/", parts[1] + "/", chatId + rest);
    Arrays.AppendAssoc(parts[0] + "/" + (parts[1] + "/"), chatId, rest);
    Arrays.AppendAssoc(parts[0] + "/", parts[1], "/");
    assert SegmentLayout(pathname, parts[0], parts[1], chatId, rest);
  }

  /** A row is active exactly when the path's segment after the second `/` is the chat id. */
  lemma ActiveIffSegment(pathname: string, chatId: string)
    ensures IsActive(pathname, chatId) <==> exists a, b, rest :: SegmentLayout(pathname, a, b, chatId, rest)
  {
    if IsActive(pathname, chatId) {
      ActiveHasLayout(pathname, chatId);
    }
    if exists a, b, rest :: SegmentLayout(pathname, a, b, chatId, rest) {
      var a, b, rest :| SegmentLayout(pathname, a, b, chatId, rest);
      LayoutIsActive(pathname, a, b, chatId, rest);
    }
  }

  /** On the page of a chat, the row linking to that page is the one and only active row. */
  lemma ActiveOnChatPage(chatId: string, other: string)
    requires '/' !in chatId
    ensures IsActive("/chat/" + chatId, other) <==> other == chatId
  {
    var path := "/chat/" + chatId;
    SplitNoSep(chatId, '/');
    SplitCons("chat", '/', chatId);
    SplitCons([], '/', "chat/" + chatId);
    assert path == [] + "/" + ("chat" + "/" + chatId);
  }
}
