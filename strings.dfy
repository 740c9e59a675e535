/**
  The JavaScript string operations the core relies on: `toLowerCase`,
  `includes`, `split` on a one-character separator, and `trim`.
  Strings are sequences of characters.
 */
module Strings {
  import Arrays

  /** String.prototype.toLowerCase, modelled by an abstract per-character case fold. */
  function Lower(s: string, fold: char -> char): (r: string)
    ensures |r| == |s|
  {
    if s == [] then [] else [fold(s[0])] + Lower(s[1..], fold)
  }

  /** Folding a concatenation folds each side. */
  lemma {:induction false} LowerAppend(a: string, b: string, fold: char -> char)
    ensures Lower(a + b, fold) == Lower(a, fold) + Lower(b, fold)
    decreases |a|
  {
    if a == [] {
      assert a + b == b;
    } else {
      var ab := a + b;
      assert ab[0] == a[0];
      assert ab[1..] == a[1..] + b;
      LowerAppend(a[1..], b, fold);
      calc {
        Lower(ab, fold);
        [fold(a[0])] + Lower(a[1..] + b, fold);
        [fold(a[0])] + (Lower(a[1..], fold) + Lower(b, fold));
        ([fold(a[0])] + Lower(a[1..], fold)) + Lower(b, fold);
      }
    }
  }

  /** Folding commutes with taking a slice. */
  lemma LowerSlice(s: string, i: nat, j: nat, fold: char -> char)
    requires i <= j <= |s|
    ensures Lower(s[i..j], fold) == Lower(s, fold)[i..j]
  {
    LowerThree(s, i, j, fold);
    MiddleOfThree(Lower(s, fold), Lower(s[..i], fold), Lower(s[i..j], fold), Lower(s[j..], fold), i, j);
  }

  /** Folding a string folds its three pieces around two cut points. */
  lemma LowerThree(s: string, i: nat, j: nat, fold: char -> char)
    requires i <= j <= |s|
    ensures Lower(s, fold) == Lower(s[..i], fold) + (Lower(s[i..j], fold) + Lower(s[j..], fold))
  {
    Arrays.SlicesJoin(s, 0, i, j);
    LowerAppend(s[..i], s[i..j] + s[j..], fold);
    LowerAppend(s[i..j], s[j..], fold);
  }

  /** The middle piece of three is the slice between their boundaries. */
  lemma MiddleOfThree(whole: string, f: string, m: string, k: string, i: nat, j: nat)
    requires whole == f + (m + k) && |f| == i && |f| + |m| == j
    ensures whole[i..j] == m
  {
  }

  /** `a` and `b` agree character by character once folded. */
  predicate FoldEq(a: string, b: string, fold: char -> char)
    decreases |a|
  {
    |a| == |b| && (a == [] || (fold(a[0]) == fold(b[0]) && FoldEq(a[1..], b[1..], fold)))
  }

  /** Agreeing character by character once folded is having the same lower-cased text. */
  lemma {:induction false} FoldEqIsLowerEq(a: string, b: string, fold: char -> char)
    ensures FoldEq(a, b, fold) <==> Lower(a, fold) == Lower(b, fold)
    decreases |a|
  {
    if |a| == |b| && a != [] {
      FoldEqIsLowerEq(a[1..], b[1..], fold);
      var la, lb := Lower(a, fold), Lower(b, fold);
      assert la == [fold(a[0])] + Lower(a[1..], fold);
      assert lb == [fold(b[0])] + Lower(b[1..], fold);
      if la == lb {
        assert la[0] == lb[0];
        assert la[1..] == Lower(a[1..], fold) && lb[1..] == Lower(b[1..], fold);
      }
    }
  }

  /** `t` is the piece of `s` that starts at index `i`. */
  predicate SliceAt(t: string, s: string, i: int) {
    0 <= i <= |s| - |t| && s[i..i + |t|] == t
  }

  /** `t` occurs in `s` as a contiguous piece (the reference definition of `includes`). */
  ghost predicate Occurs(t: string, s: string) {
    exists i :: SliceAt(t, s, i)
  }

  /** Every string occurs in itself. */
  lemma OccursInSelf(s: string)
    ensures Occurs(s, s)
  {
    assert SliceAt(s, s, 0);
  }

  /** String.prototype.includes: `s.includes(t)`, scanning the start positions left to right. */
  function Includes(s: string, t: string): (b: bool)
    ensures t == [] ==> b
    ensures b ==> |t| <= |s|
    decreases |s|
  {
    if |s| < |t| then false
    else if s[..|t|] == t then true
    else Includes(s[1..], t)
  }

  /** The scan of `Includes` finds an occurrence exactly when there is one. */
  lemma {:induction false} IncludesIsOccurs(s: string, t: string)
    ensures Includes(s, t) <==> Occurs(t, s)
    decreases |s|
  {
    if |s| < |t| {
    } else if s[..|t|] == t {
      assert SliceAt(t, s, 0);
    } else {
      IncludesIsOccurs(s[1..], t);
      OccursPastFirst(t, s);
    }
  }

  /** When `t` does not start `s`, it occurs in `s` exactly when it occurs after the first character. */
  lemma OccursPastFirst(t: string, s: string)
    requires s != [] && !SliceAt(t, s, 0)
    ensures Occurs(t, s) <==> Occurs(t, s[1..])
  {
    if Occurs(t, s) {
      var i :| SliceAt(t, s, i);
      SliceAtDrop(t, s, i);
    }
    if Occurs(t, s[1..]) {
      var i :| SliceAt(t, s[1..], i);
      SliceAtUndrop(t, s, i);
    }
  }

  /** A piece after the first character is a piece of the rest, one index earlier. */
  lemma SliceAtDrop(t: string, s: string, i: int)
    requires SliceAt(t, s, i) && i > 0
    ensures SliceAt(t, s[1..], i - 1)
  {
    assert s[1..][i - 1..i - 1 + |t|] == s[i..i + |t|];
  }

  /** A piece of the rest is a piece of the whole, one index later. */
  lemma SliceAtUndrop(t: string, s: string, i: int)
    requires s != [] && SliceAt(t, s[1..], i)
    ensures SliceAt(t, s, i + 1)
  {
    assert s[i + 1..i + 1 + |t|] == s[1..][i..i + |t|];
  }

  // ----- split on a one-character separator -----

  /** String.prototype.split(sep) for a one-character separator: the pieces between separators. */
  function Split(s: string, sep: char): (parts: seq<string>)
    ensures |parts| >= 1
    ensures forall k :: 0 <= k < |parts| ==> sep !in parts[k]
    decreases |s|
  {
    if s == [] then [[]]
    else
      var rest := Split(s[1..], sep);
      if s[0] == sep then [[]] + rest
      else [[s[0]] + rest[0]] + rest[1..]
  }

  /** Array.prototype.join(sep): the inverse of `Split`. */
  function Join(parts: seq<string>, sep: char): string
    requires |parts| >= 1
  {
    if |parts| == 1 then parts[0] else parts[0] + [sep] + Join(parts[1..], sep)
  }

  /** Joining the pieces of a split gives back the original string. */
  lemma {:induction false} JoinSplit(s: string, sep: char)
    ensures Join(Split(s, sep), sep) == s
    decreases |s|
  {
    if s != [] {
      JoinSplit(s[1..], sep);
      var rest := Split(s[1..], sep);
      if s[0] == sep {
        var parts := Split(s, sep);
        assert parts[1..] == rest;
        JoinStep(parts, sep);
        assert s == [sep] + s[1..];
      } else if |rest| == 1 {
        assert s == [s[0]] + s[1..];
      } else {
        var parts := Split(s, sep);
        assert parts[1..] == rest[1..];
        calc {
          Join(parts, sep);
          { JoinStep(parts, sep); }
          [s[0]] + rest[0] + [sep] + Join(rest[1..], sep);
          [s[0]] + (rest[0] + [sep] + Join(rest[1..], sep));
          { JoinStep(rest, sep); }
          [s[0]] + Join(rest, sep);
          s;
        }
      }
    }
  }

  /** A string without the separator is a single piece. */
  lemma {:induction false} SplitNoSep(a: string, sep: char)
    requires sep !in a
    ensures Split(a, sep) == [a]
    decreases |a|
  {
    if a != [] {
      SplitNoSep(a[1..], sep);
      assert a == [a[0]] + a[1..];
    }
  }

  /** A separator-free prefix followed by the separator becomes the first piece. */
  lemma {:induction false} SplitCons(a: string, sep: char, t: string)
    requires sep !in a
    ensures Split(a + [sep] + t, sep) == [a] + Split(t, sep)
    decreases |a|
  {
    var s := a + [sep] + t;
    if a == [] {
      assert s[1..] == t;
    } else {
      SplitCons(a[1..], sep, t);
      assert s[1..] == a[1..] + [sep] + t;
      assert [a[0]] + a[1..] == a;
    }
  }

  /** The join of three or more pieces: the first three, then the join of the rest behind a separator. */
  lemma JoinThree(parts: seq<string>, sep: char)
    requires |parts| >= 3
    ensures Join(parts, sep) == parts[0] + [sep] + (parts[1] + [sep] + (parts[2] +
      (if |parts| == 3 then [] else [sep] + Join(parts[3..], sep))))
  {
    var rest1, rest2 := parts[1..], parts[2..];
    JoinStep(parts, sep);
    assert rest1[0] == parts[1] && rest1[1..] == rest2;
    JoinStep(rest1, sep);
    if |parts| == 3 {
      assert Join(rest2, sep) == parts[2] + [];
    } else {
      assert rest2[0] == parts[2] && rest2[1..] == parts[3..];
      JoinStep(rest2, sep);
      Arrays.AppendAssoc(parts[2], [sep], Join(parts[3..], sep));
    }
  }

  /** The join of two or more pieces: the first, a separator, then the join of the rest. */
  lemma JoinStep(parts: seq<string>, sep: char)
    requires |parts| >= 2
    ensures Join(parts, sep) == parts[0] + [sep] + Join(parts[1..], sep)
  {
  }

  /** A separator-free prefix followed by nothing or by a separator is the first piece. */
  lemma SplitFirstPiece(a: string, sep: char, t: string)
    requires sep !in a
    requires t == [] || t[0] == sep
    ensures Split(a + t, sep)[0] == a
  {
    if t == [] {
      SplitNoSep(a, sep);
      assert a + t == a;
    } else {
      SplitCons(a, sep, t[1..]);
      assert a + t == a + [sep] + t[1..];
    }
  }

  /** Splitting a join of separator-free pieces gives back the pieces. */
  lemma {:induction false} SplitJoin(parts: seq<string>, sep: char)
    requires |parts| >= 1
    requires forall k :: 0 <= k < |parts| ==> sep !in parts[k]
    ensures Split(Join(parts, sep), sep) == parts
    decreases |parts|
  {
    if |parts| == 1 {
      SplitNoSep(parts[0], sep);
    } else {
      SplitJoin(parts[1..], sep);
      SplitCons(parts[0], sep, Join(parts[1..], sep));
      assert [parts[0]] + parts[1..] == parts;
    }
  }

  // ----- trim -----

  /** The ECMAScript WhiteSpace and LineTerminator code points that `trim` removes. */
  predicate IsWhitespace(c: char) {
    c in {'\t', '\n', '\U{000B}', '\U{000C}', '\r', ' ', '\U{00A0}', '\U{1680}',
          '\U{2000}', '\U{2001}', '\U{2002}', '\U{2003}', '\U{2004}', '\U{2005}',
          '\U{2006}', '\U{2007}', '\U{2008}', '\U{2009}', '\U{200A}',
          '\U{2028}', '\U{2029}', '\U{202F}', '\U{205F}', '\U{3000}', '\U{FEFF}'}
  }

  /** `r` neither starts nor ends with whitespace. */
  predicate Trimmed(r: string) {
    r == [] || (!IsWhitespace(r[0]) && !IsWhitespace(r[|r| - 1]))
  }

  /** `r` is the piece of `s` at index `i`, and everything around it in `s` is whitespace. */
  predicate PaddedAt(r: string, s: string, i: int) {
    && SliceAt(r, s, i)
    && (forall k :: 0 <= k < i ==> IsWhitespace(s[k]))
    && (forall k :: i + |r| <= k < |s| ==> IsWhitespace(s[k]))
  }

  /** `r` is a piece of `s` with only whitespace around it. */
  ghost predicate Padded(r: string, s: string) {
    exists i :: PaddedAt(r, s, i)
  }

  /** Scans back from index `n` over whitespace: the end of the text before `n`. */
  function TrimEndIndex(s: string, n: nat): (m: nat)
    requires n <= |s|
    ensures m <= n
    ensures forall k :: m <= k < n ==> IsWhitespace(s[k])
    ensures m == 0 || !IsWhitespace(s[m - 1])
    decreases n
  {
    if n > 0 && IsWhitespace(s[n - 1]) then TrimEndIndex(s, n - 1) else n
  }

  /** Scans forward from index `i` over whitespace, up to `j`: the start of the text. */
  function TrimStartIndex(s: string, i: nat, j: nat): (m: nat)
    requires i <= j <= |s|
    ensures i <= m <= j
    ensures forall k :: i <= k < m ==> IsWhitespace(s[k])
    ensures m == j || !IsWhitespace(s[m])
    decreases j - i
  {
    if i < j && IsWhitespace(s[i]) then TrimStartIndex(s, i + 1, j) else i
  }

  /** String.prototype.trim: the piece of `s` left once the whitespace around it is dropped. */
  function Trim(s: string): (r: string)
    ensures Trimmed(r) && Padded(r, s)
  {
    var j := TrimEndIndex(s, |s|);
    var i := TrimStartIndex(s, 0, j);
    assert PaddedAt(s[i..j], s, i);
    s[i..j]
  }

  /** The backward scan stops at the only index with whitespace after it and none just before it. */
  lemma {:induction false} TrimEndIndexUnique(s: string, n: nat, m: nat)
    requires m <= n <= |s|
    requires forall k :: m <= k < n ==> IsWhitespace(s[k])
    requires m == 0 || !IsWhitespace(s[m - 1])
    ensures TrimEndIndex(s, n) == m
    decreases n
  {
    if n > m {
      TrimEndIndexUnique(s, n - 1, m);
    }
  }

  /** The forward scan stops at the only index with whitespace before it and none at it. */
  lemma {:induction false} TrimStartIndexUnique(s: string, i: nat, j: nat, m: nat)
    requires i <= m <= j <= |s|
    requires forall k :: i <= k < m ==> IsWhitespace(s[k])
    requires m == j || !IsWhitespace(s[m])
    ensures TrimStartIndex(s, i, j) == m
    decreases j - i
  {
    if i < m {
      TrimStartIndexUnique(s, i + 1, j, m);
    }
  }

  /**
    Trim is determined by its contract: a piece of `s` that neither starts nor
    ends with whitespace and has only whitespace around it is the trimmed `s`.
   */
  lemma TrimUnique(t: string, s: string, i: int)
    requires Trimmed(t) && PaddedAt(t, s, i)
    ensures Trim(s) == t
  {
    if t == [] {
      assert forall k :: 0 <= k < |s| ==> IsWhitespace(s[k]) by {
        forall k | 0 <= k < |s|
          ensures IsWhitespace(s[k])
        {
          if k >= i {
            assert i + |t| <= k;
          }
        }
      }
      TrimEndIndexUnique(s, |s|, 0);
    } else {
      var m := i + |t|;
      assert s[m - 1] == t[|t| - 1];
      assert s[i] == t[0];
      TrimEndIndexUnique(s, |s|, m);
      TrimStartIndexUnique(s, 0, m, i);
    }
  }
}
