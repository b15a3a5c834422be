/** Facts about sequences and sets that several modules use. */
module Collections {

  /** The index of the first `x`, or the length if there is none. */
  function Find<T(==)>(s: seq<T>, x: T): (i: nat)
    ensures i <= |s| && x !in s[..i] && (i < |s| ==> s[i] == x)
  {
    if s == [] || s[0] == x then 0 else 1 + Find(s[1..], x)
  }

  lemma {:induction false} FindInConcat<T>(front: seq<T>, s: seq<T>, x: T)
    requires x !in front
    ensures Find(front + s, x) == |front| + Find(s, x)
  {
    if front == [] {
      assert front + s == s;
    } else {
      assert (front + s)[1..] == front[1..] + s;
      FindInConcat(front[1..], s, x);
    }
  }

  lemma FindAtMost<T>(s: seq<T>, x: T, i: nat)
    requires i < |s| && s[i] == x
    ensures Find(s, x) <= i
  {
  }

  /** The first separator ends the first word. */
  lemma FindAfterWord<T>(word: seq<T>, separator: T, rest: seq<T>)
    requires separator !in word
    ensures Find(word + [separator] + rest, separator) == |word|
  {
    assert word + [separator] + rest == word + ([separator] + rest);
    FindInConcat(word, [separator] + rest, separator);
  }

  lemma Regroup<T>(a: seq<T>, b: seq<T>, c: seq<T>, d: seq<T>)
    ensures a + (b + c + d) == a + b + c + d
  {
  }

  lemma OneMore<T>(front: seq<T>, s: seq<T>, n: nat)
    requires n < |s|
    ensures front + s[..n + 1] == front + s[..n] + [s[n]]
  {
    assert s[..n + 1] == s[..n] + [s[n]];
  }

  // ---------------------------------------------------------------- splitting and joining

  /** The pieces between the separators; n of them make n + 1 pieces. */
  function Split<T(==)>(s: seq<T>, x: T): (r: seq<seq<T>>)
    ensures r != []
  {
    var i := Find(s, x);
    if i == |s| then [s] else [s[..i]] + Split(s[i + 1..], x)
  }

  /** The parts one after the other, with a separator between any two. */
  function Joined<T>(parts: seq<seq<T>>, x: T): seq<T> {
    if parts == [] then [] else if |parts| == 1 then parts[0] else parts[0] + [x] + Joined(parts[1..], x)
  }

  lemma SplitFirst<T>(word: seq<T>, x: T, rest: seq<T>)
    requires x !in word
    ensures Split(word + [x] + rest, x) == [word] + Split(rest, x)
  {
    FindAfterWord(word, x, rest);
    var s := word + [x] + rest;
    assert s[..|word|] == word && s[|word| + 1..] == rest;
  }

  lemma SplitWord<T>(word: seq<T>, x: T)
    requires x !in word
    ensures Split(word, x) == [word]
  {
    var i := Find(word, x);
  }

  /** Joined texts without the separator split back into themselves. */
  lemma {:induction false} SplitJoined<T>(parts: seq<seq<T>>, x: T)
    requires parts != [] && forall i | 0 <= i < |parts| :: x !in parts[i]
    ensures Split(Joined(parts, x), x) == parts
    decreases |parts|
  {
    hide Split;
    if |parts| == 1 {
      SplitWord(parts[0], x);
    } else {
      SplitFirst(parts[0], x, Joined(parts[1..], x));
      SplitJoined(parts[1..], x);
      assert parts == [parts[0]] + parts[1..];
    }
  }

  /** `p` lies in `s` from `i` on, and what is next to it on either side is a separator or the end. */
  predicate StretchAt<T(==)>(s: seq<T>, x: T, p: seq<T>, i: nat) {
    && i + |p| <= |s| && s[i..i + |p|] == p
    && (i == 0 || s[i - 1] == x) && (i + |p| == |s| || s[i + |p|] == x)
  }

  ghost predicate IsStretch<T>(s: seq<T>, x: T, p: seq<T>) {
    exists i :: StretchAt(s, x, p, i)
  }

  /** The pieces are exactly the stretches of `s` without a separator that separators or the ends bound. */
  lemma {:induction false} PieceIffStretch<T>(s: seq<T>, x: T, p: seq<T>)
    ensures p in Split(s, x) <==> x !in p && IsStretch(s, x, p)
    decreases |s|
  {
    var k := Find(s, x);
    PieceUnfolds(s, x, p);
    FirstPieceIff(s, x, p);
    LaterStretches(s, x, p);
    hide Split, Find, StretchAt, IsStretch;
    if k < |s| { PieceIffStretch(s[k + 1..], x, p); }
  }

  lemma {:induction false} SplitUnfolds<T>(s: seq<T>, x: T)
    ensures var k := Find(s, x); Split(s, x) == if k == |s| then [s] else [s[..k]] + Split(s[k + 1..], x)
  {
  }

  lemma InCons<T>(p: T, first: T, rest: seq<T>)
    ensures p in [first] + rest <==> p == first || p in rest
  {
  }

  lemma {:induction false} PieceUnfolds<T>(s: seq<T>, x: T, p: seq<T>)
    ensures var k := Find(s, x); p in Split(s, x) <==> p == s[..k] || (k < |s| && p in Split(s[k + 1..], x))
  {
    SplitUnfolds(s, x);
    hide Find, Split;
    var k := Find(s, x);
    if k == |s| {
      assert s[..k] == s;
    } else {
      InCons(p, s[..k], Split(s[k + 1..], x));
    }
  }

  lemma {:induction false} LaterStretch<T>(s: seq<T>, x: T, p: seq<T>, i: nat)
    requires StretchAt(s, x, p, i) && i > 0
    ensures var k := Find(s, x); k < |s| && k < i && StretchAt(s[k + 1..], x, p, i - k - 1)
  {
    assert s[i - 1] == x;
    FindAtMost(s, x, i - 1);
    hide StretchAt, Find;
    var k := Find(s, x);
    StretchShifts(s, x, p, k, i - k - 1);
  }

  lemma {:induction false} LaterStretches<T>(s: seq<T>, x: T, p: seq<T>)
    ensures var k := Find(s, x);
            IsStretch(s, x, p) <==> StretchAt(s, x, p, 0) || (k < |s| && IsStretch(s[k + 1..], x, p))
  {
    hide StretchAt, Find;
    var k := Find(s, x);
    if i: nat :| StretchAt(s, x, p, i) && i > 0 { LaterStretch(s, x, p, i); }
    if k < |s| && IsStretch(s[k + 1..], x, p) {
      var i: nat :| StretchAt(s[k + 1..], x, p, i);
      StretchShifts(s, x, p, k, i);
    }
  }

  lemma {:induction false} FirstPieceIff<T>(s: seq<T>, x: T, p: seq<T>)
    ensures p == s[..Find(s, x)] <==> x !in p && StretchAt(s, x, p, 0)
  {
    var k := Find(s, x);
    if x !in p && StretchAt(s, x, p, 0) {
      if |p| < |s| { FindAtMost(s, x, |p|); }
      assert forall n | 0 <= n < |p| :: p[n] == s[..|p|][n] == s[n];
    }
  }

  lemma {:induction false} StretchShifts<T>(s: seq<T>, x: T, p: seq<T>, k: nat, i: nat)
    requires k < |s| && s[k] == x
    ensures StretchAt(s[k + 1..], x, p, i) <==> StretchAt(s, x, p, i + k + 1)
  {
    if i + |p| <= |s| - k - 1 {
      assert s[k + 1..][i..i + |p|] == s[i + k + 1..i + k + 1 + |p|];
    }
  }

  lemma {:induction false} SubsetSize<T>(a: set<T>, b: set<T>)
    requires a <= b
    ensures |a| <= |b|
  {
    if a != {} {
      var x :| x in a;
      SubsetSize(a - {x}, b - {x});
    }
  }

  /** A sequence of distinct elements of a set is no longer than the set is large. */
  lemma {:induction false} DistinctFit<T>(s: seq<T>, within: set<T>)
    requires forall i, j | 0 <= i < j < |s| :: s[i] != s[j]
    requires forall x | x in s :: x in within
    ensures |s| <= |within|
  {
    if s != [] {
      var n := |s| - 1;
      forall x | x in s[..n]
        ensures x in within - {s[n]}
      {
        assert x in s;
      }
      DistinctFit(s[..n], within - {s[n]});
    }
  }
}

/** Bytes, as ranges of the integers, and which of them are text. */
module ByteTypes {
  type byte = x: int | 0 <= x < 256
  type Bytes = seq<byte>

  predicate Continues(s: Bytes, i: nat) {
    i < |s| && 0x80 <= s[i] <= 0xBF
  }

  /** The width of the character at the front, as table 3-7 of the Unicode Standard lists the byte sequences, or
      zero if there is none. */
  function CharWidth(s: Bytes): (n: nat)
    ensures n <= |s|
  {
    if s == [] then 0
    else if s[0] <= 0x7F then 1
    else if !Continues(s, 1) then 0
    else if 0xC2 <= s[0] <= 0xDF then 2
    else if !Continues(s, 2) || (s[0] == 0xE0 && s[1] < 0xA0) || (s[0] == 0xED && s[1] > 0x9F) then 0
    else if 0xE0 <= s[0] <= 0xEF then 3
    else if !Continues(s, 3) || (s[0] == 0xF0 && s[1] < 0x90) || (s[0] == 0xF4 && s[1] > 0x8F) then 0
    else if 0xF0 <= s[0] <= 0xF4 then 4
    else 0
  }

  predicate ValidUtf8(s: Bytes) {
    s == [] || (CharWidth(s) > 0 && ValidUtf8(s[CharWidth(s)..]))
  }

  lemma NothingIsText()
    ensures ValidUtf8([])
  {
  }
}
