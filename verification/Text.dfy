/** Go's `strings` helpers used by the modelled code, over sequences of any
    comparable element, together with the laws the other modules rely on. */
module Text {

  datatype Option<+T> = None | Some(value: T)

  datatype Result<+T, +E> = Ok(value: T) | Err(error: E)

  // C0 controls and DEL
  predicate IsControl(c: char) {
    c as int < 0x20 || c as int == 0x7F
  }

  predicate IsAlnum(c: char) {
    'a' <= c <= 'z' || 'A' <= c <= 'Z' || '0' <= c <= '9'
  }

  function HexValue(c: char): Option<int> {
    if '0' <= c <= '9' then Some(c as int - '0' as int)
    else if 'A' <= c <= 'F' then Some(c as int - 'A' as int + 10)
    else if 'a' <= c <= 'f' then Some(c as int - 'a' as int + 10)
    else None
  }

  // All that is asked of a digest: distinct inputs never share one.
  ghost predicate Injective(hash: string -> string) {
    forall a, b :: hash(a) == hash(b) ==> a == b
  }

  lemma Assoc<T>(a: seq<T>, b: seq<T>, c: seq<T>)
    ensures a + (b + c) == a + b + c
  {
  }

  lemma DropDrop<T>(s: seq<T>, a: nat, b: nat)
    requires a + b <= |s|
    ensures s[a..][b..] == s[a + b..]
  {
  }

  lemma SliceSlice<T>(s: seq<T>, lo: nat, hi: nat, i: nat, j: nat)
    requires lo <= hi <= |s| && i <= j <= hi - lo
    ensures s[lo..hi][i..j] == s[lo + i..lo + j]
  {
    var a, b := s[lo..hi][i..j], s[lo + i..lo + j];
    forall k | 0 <= k < j - i ensures a[k] == b[k] {
      assert a[k] == s[lo..hi][i + k] == s[lo + i + k];
    }
  }

  // strings.HasPrefix
  predicate HasPrefix<T(==)>(s: seq<T>, p: seq<T>) {
    |p| <= |s| && s[..|p|] == p
  }

  // strings.HasSuffix
  predicate HasSuffix<T(==)>(s: seq<T>, p: seq<T>) {
    |p| <= |s| && s[|s| - |p|..] == p
  }

  // m occurs in s at position i
  predicate OccursAt<T(==)>(s: seq<T>, m: seq<T>, i: int) {
    0 <= i && i + |m| <= |s| && s[i..i + |m|] == m
  }

  // strings.Index: the position of m in s, -1 when it does not occur
  function Index<T(==)>(s: seq<T>, m: seq<T>): int {
    if HasPrefix(s, m) then 0
    else if s == [] then -1
    else
      var r := Index(s[1..], m);
      if r < 0 then -1 else r + 1
  }

  // The position found is an occurrence, and no occurrence lies before it.
  lemma {:induction false} IndexLeftmost<T>(s: seq<T>, m: seq<T>, i: int)
    ensures var r := Index(s, m); r == -1 || OccursAt(s, m, r)
    ensures OccursAt(s, m, i) ==> 0 <= Index(s, m) <= i
  {
    if !HasPrefix(s, m) && s != [] {
      var r := Index(s[1..], m);
      IndexLeftmost(s[1..], m, i - 1);
      if i > 0 {
        OccursInTail(s, m, i);
      }
      if r >= 0 {
        OccursInTail(s, m, r + 1);
      }
    }
  }

  lemma OccursInTail<T>(s: seq<T>, m: seq<T>, i: int)
    requires s != [] && i > 0
    ensures OccursAt(s, m, i) <==> OccursAt(s[1..], m, i - 1)
  {
    if i + |m| <= |s| {
      assert s[1..][i - 1..i - 1 + |m|] == s[i..i + |m|];
    }
  }

  // strings.Join with a one-element separator
  function Join<T>(parts: seq<seq<T>>, sep: T): seq<T> {
    if |parts| == 0 then []
    else if |parts| == 1 then parts[0]
    else parts[0] + [sep] + Join(parts[1..], sep)
  }

  // strings.Split with a one-element separator
  function Split<T(==)>(s: seq<T>, sep: T): (parts: seq<seq<T>>)
    ensures |parts| >= 1
  {
    if s == [] then [[]]
    else
      var rest := Split(s[1..], sep);
      if s[0] == sep then [[]] + rest else [[s[0]] + rest[0]] + rest[1..]
  }

  // The parts hold no separator, and joining them gives back the whole.
  lemma {:induction false} JoinOfSplit<T>(s: seq<T>, sep: T)
    ensures forall i :: 0 <= i < |Split(s, sep)| ==> sep !in Split(s, sep)[i]
    ensures Join(Split(s, sep), sep) == s
  {
    if s != [] {
      var parts, rest := Split(s, sep), Split(s[1..], sep);
      JoinOfSplit(s[1..], sep);
      if s[0] == sep {
        assert parts[1..] == rest;
      } else {
        assert parts[1..] == rest[1..];
        if |rest| > 1 {
          Assoc([s[0]], rest[0] + [sep], Join(rest[1..], sep));
          Assoc([s[0]], rest[0], [sep]);
        }
      }
      assert s == [s[0]] + s[1..];
    }
  }

  // Splitting is the inverse of joining parts that do not hold the separator.
  lemma {:induction false} SplitOfJoin<T>(parts: seq<seq<T>>, sep: T)
    requires |parts| >= 1
    requires forall i :: 0 <= i < |parts| ==> sep !in parts[i]
    ensures Split(Join(parts, sep), sep) == parts
    decreases |parts|, |parts[0]|
  {
    var s := Join(parts, sep);
    if |parts| == 1 {
      SplitOfPlain(parts[0], sep);
    } else if parts[0] == [] {
      assert s[0] == sep && s[1..] == Join(parts[1..], sep);
      SplitOfJoin(parts[1..], sep);
      assert parts == [[]] + parts[1..];
    } else {
      var shorter := [parts[0][1..]] + parts[1..];
      assert shorter[1..] == parts[1..];
      assert s[1..] == Join(shorter, sep);
      assert s[0] == parts[0][0];
      SplitOfJoin(shorter, sep);
      assert [s[0]] + shorter[0] == parts[0];
      assert parts == [parts[0]] + parts[1..];
    }
  }

  lemma {:induction false} SplitOfPlain<T>(s: seq<T>, sep: T)
    requires sep !in s
    ensures Split(s, sep) == [s]
  {
    if s != [] {
      SplitOfPlain(s[1..], sep);
      assert [s[0]] + s[1..] == s;
    }
  }

  lemma {:induction false} JoinConcat<T>(a: seq<seq<T>>, b: seq<seq<T>>, sep: T)
    requires |a| >= 1 && |b| >= 1
    ensures Join(a + b, sep) == Join(a, sep) + [sep] + Join(b, sep)
  {
    if |a| == 1 {
      assert (a + b)[1..] == b;
    } else {
      JoinConcat(a[1..], b, sep);
      assert (a + b)[1..] == a[1..] + b;
    }
  }

  // Splitting distributes over the separator.
  lemma {:induction false} SplitConcat<T>(a: seq<T>, b: seq<T>, sep: T)
    ensures Split(a + [sep] + b, sep) == Split(a, sep) + Split(b, sep)
  {
    JoinOfSplit(a, sep);
    JoinOfSplit(b, sep);
    JoinConcat(Split(a, sep), Split(b, sep), sep);
    SplitOfJoin(Split(a, sep) + Split(b, sep), sep);
  }

  // strings.Cut at a one-element separator: what precedes and follows its first
  // occurrence, and whether there is one.
  function Cut<T(==)>(s: seq<T>, sep: T): (r: (seq<T>, seq<T>, bool))
    ensures sep !in r.0
    ensures r.2 <==> sep in s
    ensures if r.2 then s == r.0 + [sep] + r.1 else r.0 == s && r.1 == []
  {
    if s == [] then ([], [], false)
    else if s[0] == sep then ([], s[1..], true)
    else
      var r := Cut(s[1..], sep);
      assert s == [s[0]] + s[1..];
      ([s[0]] + r.0, r.1, r.2)
  }

  lemma CutUnique<T>(s: seq<T>, sep: T, r: (seq<T>, seq<T>, bool))
    requires sep !in r.0
    requires if r.2 then s == r.0 + [sep] + r.1 else r.0 == s && r.1 == []
    ensures Cut(s, sep) == r
  {
    var c := Cut(s, sep);
    if r.2 {
      assert s[|r.0|] == sep;
      assert s[|c.0|] == sep;
      assert |c.0| == |r.0|;
      assert c.0 == s[..|c.0|] && r.0 == s[..|r.0|];
      assert c.1 == s[|c.0| + 1..] && r.1 == s[|r.0| + 1..];
    }
  }

  // A separator-free prefix does not change where the cut falls.
  lemma {:induction false} CutAfter<T>(head: seq<T>, s: seq<T>, sep: T)
    requires sep !in head
    ensures Cut(head + s, sep) == (head + Cut(s, sep).0, Cut(s, sep).1, Cut(s, sep).2)
  {
    var r := Cut(s, sep);
    var t := head + s;
    CutUnique(t, sep, (head + r.0, r.1, r.2));
  }

  // s[i..j] is one sep-delimited segment of s.
  predicate SegmentAt<T(==)>(s: seq<T>, sep: T, i: int, j: int) {
    0 <= i <= j <= |s| && (i == 0 || s[i - 1] == sep) && (j == |s| || s[j] == sep) && sep !in s[i..j]
  }

  lemma LastPart<T>(a: seq<T>, seg: seq<T>, sep: T)
    requires sep !in seg && (a == [] || a[|a| - 1] == sep)
    ensures seg in Split(a + seg, sep)
  {
    SplitOfPlain(seg, sep);
    if a == [] {
      assert a + seg == seg;
    } else {
      SplitConcat(a[..|a| - 1], seg, sep);
      assert a[..|a| - 1] + [sep] == a;
    }
  }

  lemma PartOfPrefix<T>(a: seq<T>, b: seq<T>, seg: seq<T>, sep: T)
    requires seg in Split(a, sep) && (b == [] || b[0] == sep)
    ensures seg in Split(a + b, sep)
  {
    if b == [] {
      assert a + b == a;
    } else {
      SplitConcat(a, b[1..], sep);
      assert a + b == a + [sep] + b[1..];
    }
  }

  // The segments of s are the parts it splits into.
  lemma SegmentIsPart<T>(s: seq<T>, sep: T, i: int, j: int)
    requires SegmentAt(s, sep, i, j)
    ensures s[i..j] in Split(s, sep)
  {
    var a, seg, b := s[..i], s[i..j], s[j..];
    LastPart(a, seg, sep);
    PartOfPrefix(a + seg, b, seg, sep);
    assert a + seg + b == s;
  }

  // A segment of the tail, moved by one.
  lemma ShiftSegment<T>(s: seq<T>, sep: T, i: int, j: int)
    requires s != [] && SegmentAt(s[1..], sep, i, j) && (i > 0 || s[0] == sep)
    ensures SegmentAt(s, sep, i + 1, j + 1) && s[i + 1..j + 1] == s[1..][i..j]
  {
    var tail := s[1..];
    assert tail == s[1..|s|];
    SliceSlice(s, 1, |s|, i, j);
    assert i > 0 ==> tail[i - 1] == s[i];
    assert j < |tail| ==> tail[j] == s[j + 1];
  }

  // The first segment of the tail, grown by one.
  lemma GrowSegment<T>(s: seq<T>, sep: T, j: int)
    requires s != [] && SegmentAt(s[1..], sep, 0, j) && s[0] != sep
    ensures SegmentAt(s, sep, 0, j + 1) && s[0..j + 1] == [s[0]] + s[1..][0..j]
  {
    var tail := s[1..];
    assert s[0..j + 1] == [s[0]] + tail[0..j];
    assert j < |tail| ==> tail[j] == s[j + 1];
  }

  lemma {:induction false} PartIsSegment<T>(s: seq<T>, sep: T, p: nat) returns (i: int, j: int)
    requires p < |Split(s, sep)|
    ensures SegmentAt(s, sep, i, j) && s[i..j] == Split(s, sep)[p] && (p == 0 <==> i == 0)
  {
    i, j := 0, 0;
    if s != [] && s[0] == sep {
      if p > 0 {
        i, j := PartIsSegment(s[1..], sep, p - 1);
        ShiftSegment(s, sep, i, j);
        i, j := i + 1, j + 1;
      }
    } else if s != [] {
      i, j := PartIsSegment(s[1..], sep, p);
      if p == 0 {
        GrowSegment(s, sep, j);
        j := j + 1;
      } else {
        ShiftSegment(s, sep, i, j);
        i, j := i + 1, j + 1;
      }
    }
  }
}
