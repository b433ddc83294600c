/** The Ant-style permission patterns of internal/auth/pathmatch.go: the greedy
    in-segment matcher and the backtracking segment walk, each proved equal to a
    declarative relation that knows nothing about search order. */
module PathMatch {
  import opened Text

  // ---- one segment -------------------------------------------------------

  // What a segment pattern means: every '*' stands for any string, every other
  // character for itself.
  predicate Glob(pattern: string, s: string) {
    if pattern == "" then s == ""
    else if pattern[0] == '*' then exists k | 0 <= k <= |s| :: Glob(pattern[1..], s[k..])
    else s != "" && s[0] == pattern[0] && Glob(pattern[1..], s[1..])
  }

  // Glob on a pattern already cut at its stars, against s from position lo on.
  predicate GlobParts(parts: seq<string>, s: string, lo: int)
    requires |parts| >= 1 && 0 <= lo <= |s|
  {
    if |parts| == 1 then s[lo..] == parts[0]
    else OccursAt(s, parts[0], lo) && exists k | lo + |parts[0]| <= k <= |s| :: GlobParts(parts[1..], s, k)
  }

  // parts match s from some position at or after lo
  predicate Floating(parts: seq<string>, s: string, lo: int)
    requires |parts| >= 1 && 0 <= lo <= |s|
  {
    exists k | lo <= k <= |s| :: GlobParts(parts, s, k)
  }

  // The literals occur in s between lo and hi, one after the other, without overlap.
  predicate InOrder(mids: seq<string>, s: string, lo: int, hi: int)
    requires 0 <= lo <= hi <= |s|
  {
    mids == [] ||
    exists i | lo <= i <= hi - |mids[0]| :: OccursAt(s, mids[0], i) && InOrder(mids[1..], s, i + |mids[0]|, hi)
  }

  lemma {:induction false} GlobByParts(parts: seq<string>, s: string, lo: nat)
    requires |parts| >= 1 && lo <= |s|
    requires forall i :: 0 <= i < |parts| ==> '*' !in parts[i]
    ensures Glob(Join(parts, '*'), s[lo..]) <==> GlobParts(parts, s, lo)
    decreases |parts|, |parts[0]|
  {
    var p := Join(parts, '*');
    if parts[0] == "" {
      if |parts| > 1 {
        GlobAfterStar(parts, s, lo);
      }
    } else {
      var shorter := [parts[0][1..]] + parts[1..];
      assert shorter[1..] == parts[1..];
      assert p[0] == parts[0][0] && p[1..] == Join(shorter, '*');
      if lo < |s| {
        GlobByParts(shorter, s, lo + 1);
        DropDrop(s, lo, 1);
        OccursAtHead(s, parts[0], lo);
        TailHead(s, parts[0], lo);
      }
    }
  }

  lemma {:induction false} GlobAfterStar(parts: seq<string>, s: string, lo: nat)
    requires |parts| > 1 && parts[0] == "" && lo <= |s|
    requires forall i :: 0 <= i < |parts| ==> '*' !in parts[i]
    ensures Glob(Join(parts, '*'), s[lo..]) <==> GlobParts(parts, s, lo)
    decreases |parts|, 0, 0
  {
    var p, rest := Join(parts, '*'), Join(parts[1..], '*');
    assert p[0] == '*' && p[1..] == rest;
    forall k | 0 <= k <= |s[lo..]| ensures Glob(rest, s[lo..][k..]) <==> GlobParts(parts[1..], s, lo + k) {
      DropDrop(s, lo, k);
      GlobByParts(parts[1..], s, lo + k);
    }
    if Floating(parts[1..], s, lo) {
      var k :| lo <= k <= |s| && GlobParts(parts[1..], s, k);
      assert Glob(rest, s[lo..][k - lo..]);
    }
  }

  lemma OccursAtHead(s: string, m: string, i: nat)
    requires i < |s| && m != ""
    ensures OccursAt(s, m, i) <==> s[i] == m[0] && OccursAt(s, m[1..], i + 1)
  {
    if i + |m| <= |s| {
      assert s[i..i + |m|] == [s[i]] + s[i + 1..i + |m|];
      assert m == [m[0]] + m[1..];
    }
  }

  lemma TailHead(s: string, m: string, i: nat)
    requires i < |s| && m != ""
    ensures s[i..] == m <==> s[i] == m[0] && s[i + 1..] == m[1..]
  {
    assert s[i..] == [s[i]] + s[i + 1..];
    assert m == [m[0]] + m[1..];
  }

  // Taking the leftmost occurrence of the next literal loses nothing: whatever
  // follows a later occurrence also follows the first one.
  lemma InOrderLeftmost(mids: seq<string>, s: string, lo: int, hi: int, idx: int)
    requires mids != [] && 0 <= lo <= hi <= |s|
    requires lo <= idx <= hi - |mids[0]| && OccursAt(s, mids[0], idx)
    requires forall i :: lo <= i < idx ==> !OccursAt(s, mids[0], i)
    ensures InOrder(mids, s, lo, hi) <==> InOrder(mids[1..], s, idx + |mids[0]|, hi)
  {
    if InOrder(mids, s, lo, hi) {
      var i :| lo <= i <= hi - |mids[0]| && OccursAt(s, mids[0], i) && InOrder(mids[1..], s, i + |mids[0]|, hi);
      InOrderWidens(mids[1..], s, idx + |mids[0]|, i + |mids[0]|, hi);
    }
  }

  lemma InOrderWidens(mids: seq<string>, s: string, lo: int, lo': int, hi: int)
    requires 0 <= lo <= lo' <= hi <= |s|
    requires InOrder(mids, s, lo', hi)
    ensures InOrder(mids, s, lo, hi)
  {
    if mids != [] {
      var i :| lo' <= i <= hi - |mids[0]| && OccursAt(s, mids[0], i) && InOrder(mids[1..], s, i + |mids[0]|, hi);
      assert lo <= i;
    }
  }

  // A pattern tail that may start anywhere: its last literal closes s and the
  // literals before it occur in order in what is left.
  lemma {:induction false} FloatingInOrder(parts: seq<string>, s: string, lo: nat)
    requires |parts| >= 1 && lo <= |s|
    ensures var last := parts[|parts| - 1];
            Floating(parts, s, lo) <==>
              lo + |last| <= |s| && s[|s| - |last|..] == last &&
              InOrder(parts[..|parts| - 1], s, lo, |s| - |last|)
    decreases |parts|
  {
    var last := parts[|parts| - 1];
    if |parts| == 1 {
      if lo + |last| <= |s| && s[|s| - |last|..] == last {
        assert GlobParts(parts, s, |s| - |last|);
      }
    } else {
      if Floating(parts, s, lo) {
        FloatingSound(parts, s, lo);
      }
      if lo + |last| <= |s| && s[|s| - |last|..] == last && InOrder(parts[..|parts| - 1], s, lo, |s| - |last|) {
        FloatingComplete(parts, s, lo);
      }
    }
  }

  lemma GlobPartsRest(parts: seq<string>, s: string, k: nat)
    requires |parts| > 1 && k <= |s| && GlobParts(parts, s, k)
    ensures OccursAt(s, parts[0], k) && Floating(parts[1..], s, k + |parts[0]|)
  {
  }

  lemma {:induction false} FloatingSound(parts: seq<string>, s: string, lo: nat)
    requires |parts| > 1 && lo <= |s|
    requires Floating(parts, s, lo)
    ensures var last := parts[|parts| - 1];
            lo + |last| <= |s| && s[|s| - |last|..] == last && InOrder(parts[..|parts| - 1], s, lo, |s| - |last|)
    decreases |parts|, 0
  {
    var m, mids, hi := parts[0], parts[..|parts| - 1], |s| - |parts[|parts| - 1]|;
    assert mids[1..] == parts[1..][..|parts| - 2];
    var k :| lo <= k <= |s| && GlobParts(parts, s, k);
    GlobPartsRest(parts, s, k);
    FloatingInOrder(parts[1..], s, k + |m|);
    assert OccursAt(s, mids[0], k) && InOrder(mids[1..], s, k + |mids[0]|, hi);
  }

  lemma {:induction false} FloatingComplete(parts: seq<string>, s: string, lo: nat)
    requires |parts| > 1 && lo + |parts[|parts| - 1]| <= |s|
    requires s[|s| - |parts[|parts| - 1]|..] == parts[|parts| - 1]
    requires InOrder(parts[..|parts| - 1], s, lo, |s| - |parts[|parts| - 1]|)
    ensures Floating(parts, s, lo)
    decreases |parts|, 0
  {
    var m, mids, hi := parts[0], parts[..|parts| - 1], |s| - |parts[|parts| - 1]|;
    assert mids[1..] == parts[1..][..|parts| - 2];
    var k :| lo <= k <= hi - |mids[0]| && OccursAt(s, mids[0], k) && InOrder(mids[1..], s, k + |mids[0]|, hi);
    FloatingInOrder(parts[1..], s, k + |m|);
    assert Floating(parts[1..], s, k + |m|);
    assert GlobParts(parts, s, k);
  }

  lemma OccursInSlice(s: string, m: string, lo: nat, hi: nat, i: int)
    requires lo <= hi <= |s|
    ensures OccursAt(s[lo..hi], m, i) <==> 0 <= i && lo + i + |m| <= hi && OccursAt(s, m, lo + i)
  {
    if 0 <= i && lo + i + |m| <= hi {
      SliceSlice(s, lo, hi, i, i + |m|);
    }
  }

  // One middle literal of the greedy matcher, on the window s[lo..hi] it has left.
  lemma GreedyStep(mids: seq<string>, s: string, lo: nat, hi: nat)
    requires mids != [] && lo <= hi <= |s|
    ensures var idx := Index(s[lo..hi], mids[0]);
            if idx < 0 then !InOrder(mids, s, lo, hi)
            else lo + idx + |mids[0]| <= hi &&
                 (InOrder(mids, s, lo, hi) <==> InOrder(mids[1..], s, lo + idx + |mids[0]|, hi))
  {
    var w, m := s[lo..hi], mids[0];
    var idx := Index(w, m);
    forall i | lo <= i && i + |m| <= hi && OccursAt(s, m, i) ensures 0 <= idx <= i - lo {
      OccursInSlice(s, m, lo, hi, i - lo);
      IndexLeftmost(w, m, i - lo);
    }
    IndexLeftmost(w, m, 0);
    OccursInSlice(s, m, lo, hi, idx);
    if idx >= 0 {
      InOrderLeftmost(mids, s, lo, hi, lo + idx);
    }
  }

  // A pattern with a star: both ends are anchored, the middle literals float.
  lemma AnchoredParts(parts: seq<string>, text: string)
    requires |parts| > 1 && HasPrefix(text, parts[0])
    ensures var s, last := text[|parts[0]|..], parts[|parts| - 1];
            GlobParts(parts, text, 0) <==>
              HasSuffix(s, last) && InOrder(parts[1..|parts| - 1], text, |parts[0]|, |text| - |last|)
    ensures var s, last := text[|parts[0]|..], parts[|parts| - 1];
            HasSuffix(s, last) ==> s[..|s| - |last|] == text[|parts[0]|..|text| - |last|]
  {
    var s, last := text[|parts[0]|..], parts[|parts| - 1];
    FloatingInOrder(parts[1..], text, |parts[0]|);
    assert parts[1..|parts| - 1] == parts[1..][..|parts| - 2];
    assert OccursAt(text, parts[0], 0);
    if |last| <= |s| {
      DropDrop(text, |parts[0]|, |s| - |last|);
    }
  }

  // The greedy matcher: cut at the stars, anchor both ends, take the leftmost
  // occurrence of every middle literal.
  method WildcardEqual(pattern: string, text: string) returns (ok: bool)
    ensures ok <==> Glob(pattern, text)
  {
    var parts := Split(pattern, '*');
    JoinOfSplit(pattern, '*');
    GlobByParts(parts, text, 0);
    assert text[0..] == text;
    if |parts| == 1 {
      return pattern == text;
    }
    if !HasPrefix(text, parts[0]) {
      return false;
    }
    var s := text[|parts[0]|..];
    var last := parts[|parts| - 1];
    AnchoredParts(parts, text);
    if !HasSuffix(s, last) {
      return false;
    }
    s := s[..|s| - |last|];
    var mids := parts[1..|parts| - 1];
    ok := MiddlesInOrder(mids, s, text, |parts[0]|, |text| - |last|);
  }

  // The loop over the middle literals; start and end are where window sits in text.
  method MiddlesInOrder(mids: seq<string>, window: string, ghost text: string, ghost start: nat, ghost end: nat)
    returns (ok: bool)
    requires start <= end <= |text| && window == text[start..end]
    ensures ok <==> InOrder(mids, text, start, end)
  {
    var s := window;
    ghost var lo := start;
    var i := 0;
    while i < |mids|
      invariant 0 <= i <= |mids|
      invariant start <= lo <= end && s == text[lo..end]
      invariant InOrder(mids, text, start, end) <==> InOrder(mids[i..], text, lo, end)
    {
      var mid := mids[i];
      assert mids[i..][1..] == mids[i + 1..];
      GreedyStep(mids[i..], text, lo, end);
      if mid != "" {
        var idx := Index(s, mid);
        if idx < 0 {
          return false;
        }
        s := s[idx + |mid|..];
        lo := lo + idx + |mid|;
      }
      i := i + 1;
    }
    return true;
  }

  // Go's segmentMatch. A star-free pattern means equality.
  predicate SegmentMatch(pattern: string, segment: string) {
    if '*' !in pattern then pattern == segment else Glob(pattern, segment)
  }

  lemma {:induction false} SegmentMatchIsGlob(pattern: string, s: string)
    ensures SegmentMatch(pattern, s) <==> Glob(pattern, s)
  {
    if '*' !in pattern {
      GlobByParts([pattern], s, 0);
      assert s[0..] == s;
    }
  }

  // ---- segments ----------------------------------------------------------

  // unicode.IsSpace
  predicate IsSpace(c: char) {
    var n := c as int;
    9 <= n <= 13 || n == 32 || n == 0x85 || n == 0xA0 || n == 0x1680 || 0x2000 <= n <= 0x200A ||
    n == 0x2028 || n == 0x2029 || n == 0x202F || n == 0x205F || n == 0x3000
  }

  // strings.TrimSpace
  function TrimSpace(s: string): (t: string)
    ensures t != "" ==> !IsSpace(t[0]) && !IsSpace(t[|t| - 1])
    ensures forall c :: c in t ==> c in s
  {
    if s == "" then ""
    else if IsSpace(s[0]) then TrimSpace(s[1..])
    else if IsSpace(s[|s| - 1]) then TrimSpace(s[..|s| - 1])
    else s
  }

  // The trimmed, non-empty members of parts, in order.
  function Tokens(parts: seq<string>): (segs: seq<string>)
    ensures forall i :: 0 <= i < |segs| ==> segs[i] != ""
  {
    if parts == [] then [] else Token(parts[0]) + Tokens(parts[1..])
  }

  function Token(part: string): seq<string> {
    var seg := TrimSpace(part);
    if seg != "" then [seg] else []
  }

  lemma {:induction false} TokensConcat(a: seq<string>, b: seq<string>)
    ensures Tokens(a + b) == Tokens(a) + Tokens(b)
  {
    if a == [] {
      assert a + b == b;
    } else {
      TokensConcat(a[1..], b);
      assert (a + b)[1..] == a[1..] + b;
      assert Tokens(a + b) == Token(a[0]) + Tokens(a[1..] + b);
      Assoc(Token(a[0]), Tokens(a[1..]), Tokens(b));
    }
  }

  lemma TokensSnoc(raw: seq<string>, i: nat)
    requires i < |raw|
    ensures Tokens(raw[..i + 1]) == Tokens(raw[..i]) + Token(raw[i])
  {
    var init, last := raw[..i], [raw[i]];
    TokensConcat(init, last);
    assert raw[..i + 1] == init + last;
    assert last[1..] == [];
  }

  function Segments(s: string): (segs: seq<string>)
    ensures forall i :: 0 <= i < |segs| ==> segs[i] != ""
  {
    Tokens(Split(s, '/'))
  }

  method SplitSegments(s: string) returns (segs: seq<string>)
    ensures segs == Segments(s)
  {
    var raw := Split(s, '/');
    segs := [];
    for i := 0 to |raw|
      invariant segs == Tokens(raw[..i])
    {
      var seg := TrimSpace(raw[i]);
      if seg != "" {
        segs := segs + [seg];
      }
      TokensSnoc(raw, i);
    }
    assert raw[..|raw|] == raw;
  }

  // No segment holds a '/': why a '*' can never reach across a directory.
  lemma SegmentsSlashFree(s: string)
    ensures forall i :: 0 <= i < |Segments(s)| ==> '/' !in Segments(s)[i]
  {
    JoinOfSplit(s, '/');
    TokensSlashFree(Split(s, '/'));
  }

  lemma {:induction false} TokensSlashFree(parts: seq<string>)
    requires forall i :: 0 <= i < |parts| ==> '/' !in parts[i]
    ensures forall i :: 0 <= i < |Tokens(parts)| ==> '/' !in Tokens(parts)[i]
  {
    if parts != [] {
      TokensSlashFree(parts[1..]);
      var seg := TrimSpace(parts[0]);
      assert '/' !in seg;
    }
  }

  lemma SegmentsConcat(a: string, b: string)
    ensures Segments(a + "/" + b) == Segments(a) + Segments(b)
  {
    SplitConcat(a, b, '/');
    TokensConcat(Split(a, '/'), Split(b, '/'));
  }

  // ---- the segment walk --------------------------------------------------

  // Pattern segments match the whole of t, with "**" as any number of segments.
  predicate FullMatch(p: seq<string>, t: seq<string>) {
    if p == [] then t == []
    else if p[0] == "**" then exists k | 0 <= k <= |t| :: FullMatch(p[1..], t[k..])
    else t != [] && SegmentMatch(p[0], t[0]) && FullMatch(p[1..], t[1..])
  }

  // p matches a prefix of t; a proper prefix only when allowed.
  predicate PrefixMatch(p: seq<string>, t: seq<string>, proper: bool) {
    exists n | 0 <= n <= |t| :: (n == |t| || proper) && FullMatch(p, t[..n])
  }

  // The last pattern segment is a plain directory name.
  predicate NamesDirectory(p: seq<string>) {
    p != [] && '*' !in p[|p| - 1]
  }

  // What a pattern covers: a full match, or, for a folder path only, a match of
  // one of its ancestor directories by a pattern that names a directory.
  predicate Covers(p: seq<string>, t: seq<string>, isFolder: bool) {
    PrefixMatch(p, t, isFolder && NamesDirectory(p))
  }

  lemma PrefixMatchStep(p: seq<string>, t: seq<string>, proper: bool)
    requires p != [] && p[0] != "**"
    ensures PrefixMatch(p, t, proper) <==>
              t != [] && SegmentMatch(p[0], t[0]) && PrefixMatch(p[1..], t[1..], proper)
  {
    if PrefixMatch(p, t, proper) {
      var n :| 0 <= n <= |t| && (n == |t| || proper) && FullMatch(p, t[..n]);
      assert t[..n][1..] == t[1..][..n - 1];
    }
    if t != [] && SegmentMatch(p[0], t[0]) && PrefixMatch(p[1..], t[1..], proper) {
      var n :| 0 <= n <= |t[1..]| && (n == |t[1..]| || proper) && FullMatch(p[1..], t[1..][..n]);
      assert t[..n + 1][1..] == t[1..][..n];
      assert FullMatch(p, t[..n + 1]);
    }
  }

  lemma PrefixMatchStars(p: seq<string>, t: seq<string>, proper: bool)
    requires p != [] && p[0] == "**"
    ensures PrefixMatch(p, t, proper) <==>
              exists k | 0 <= k <= |t| :: PrefixMatch(p[1..], t[k..], proper)
  {
    if PrefixMatch(p, t, proper) {
      var n :| 0 <= n <= |t| && (n == |t| || proper) && FullMatch(p, t[..n]);
      var k :| 0 <= k <= n && FullMatch(p[1..], t[..n][k..]);
      assert t[..n][k..] == t[k..][..n - k];
      assert PrefixMatch(p[1..], t[k..], proper);
    }
    if k :| 0 <= k <= |t| && PrefixMatch(p[1..], t[k..], proper) {
      var n :| 0 <= n <= |t[k..]| && (n == |t[k..]| || proper) && FullMatch(p[1..], t[k..][..n]);
      assert t[..k + n][k..] == t[k..][..n];
      assert FullMatch(p, t[..k + n]);
    }
  }

  // The backtracking search of segsMatch.
  method SegsMatch(pSegs: seq<string>, tSegs: seq<string>, isFolder: bool) returns (ok: bool)
    ensures ok <==> Covers(pSegs, tSegs, isFolder)
    decreases |pSegs|
  {
    var pi, ti := 0, 0;
    var lastPlain := false;
    var proper := isFolder && NamesDirectory(pSegs);
    assert pSegs[0..] == pSegs && tSegs[0..] == tSegs;
    while pi < |pSegs|
      invariant 0 <= pi <= |pSegs| && 0 <= ti <= |tSegs|
      invariant lastPlain == (pi > 0 && '*' !in pSegs[pi - 1])
      invariant Covers(pSegs, tSegs, isFolder) <==> PrefixMatch(pSegs[pi..], tSegs[ti..], proper)
    {
      var seg := pSegs[pi];
      var restP, restT := pSegs[pi..], tSegs[ti..];
      assert restP[1..] == pSegs[pi + 1..];
      if seg == "**" {
        PrefixMatchStars(restP, restT, proper);
        var rest := pSegs[pi + 1..];
        assert NamesDirectory(rest) == NamesDirectory(pSegs);
        var skip := ti;
        while skip <= |tSegs|
          invariant ti <= skip <= |tSegs| + 1
          invariant forall k :: ti <= k < skip ==> !PrefixMatch(rest, tSegs[k..], proper)
        {
          var hit := SegsMatch(rest, tSegs[skip..], isFolder);
          if hit {
            assert restT[skip - ti..] == tSegs[skip..];
            return true;
          }
          skip := skip + 1;
        }
        assert forall k | 0 <= k <= |restT| :: restT[k..] == tSegs[ti + k..];
        return false;
      }
      PrefixMatchStep(restP, restT, proper);
      if ti >= |tSegs| {
        return false;
      }
      var hit := true;
      if '*' in seg {
        hit := WildcardEqual(seg, tSegs[ti]);
      } else {
        hit := seg == tSegs[ti];
      }
      if !hit {
        return false;
      }
      assert restT[1..] == tSegs[ti + 1..];
      lastPlain := '*' !in seg;
      pi := pi + 1;
      ti := ti + 1;
    }
    var restT := tSegs[ti..];
    assert forall n | 0 <= n <= |restT| :: FullMatch([], restT[..n]) <==> n == 0;
    assert FullMatch([], restT[..0]);
    if ti == |tSegs| {
      return true;
    }
    return isFolder && lastPlain && pi > 0;
  }

  // ---- whole patterns ----------------------------------------------------

  predicate Matches(pattern: string, path: string) {
    if pattern == "" || pattern == "**" || pattern == "**/*" then true
    else
      var trimmed := TrimSpace(path);
      trimmed != "" && Covers(Segments(pattern), Segments(trimmed), HasSuffix(trimmed, "/"))
  }

  method Match(pattern: string, path: string) returns (ok: bool)
    ensures ok <==> Matches(pattern, path)
  {
    if pattern == "" || pattern == "**" || pattern == "**/*" {
      return true;
    }
    var trimmed := TrimSpace(path);
    if trimmed == "" {
      return false;
    }
    var isFolder := HasSuffix(trimmed, "/");
    var pSegs := SplitSegments(pattern);
    var tSegs := SplitSegments(trimmed);
    ok := SegsMatch(pSegs, tSegs, isFolder);
  }

  predicate AnyMatches(patterns: seq<string>, path: string) {
    exists i | 0 <= i < |patterns| :: Matches(patterns[i], path)
  }

  method MatchesAny(patterns: seq<string>, path: string) returns (ok: bool)
    ensures ok <==> AnyMatches(patterns, path)
  {
    for i := 0 to |patterns|
      invariant forall j :: 0 <= j < i ==> !Matches(patterns[j], path)
    {
      var hit := Match(patterns[i], path);
      if hit {
        return true;
      }
    }
    return false;
  }

  // ---- what the pattern language promises ---------------------------------

  // A file path is never covered through one of its ancestors.
  lemma FileNeedsFullMatch(p: seq<string>, t: seq<string>)
    ensures Covers(p, t, false) <==> FullMatch(p, t)
  {
    assert t[..|t|] == t;
  }

  // "dir/**" covers the directory itself and everything below it, for files and
  // folders alike, and nothing else.
  lemma {:induction false} TrailingStarsCoverSubtree(p: seq<string>, t: seq<string>, isFolder: bool)
    ensures Covers(p + ["**"], t, isFolder) <==> exists n | 0 <= n <= |t| :: FullMatch(p, t[..n])
  {
    assert (p + ["**"])[|p|] == "**";
    assert t[..|t|] == t;
    TrailingStarsFull(p, t);
  }

  lemma {:induction false} TrailingStarsFull(p: seq<string>, t: seq<string>)
    ensures FullMatch(p + ["**"], t) <==> exists n | 0 <= n <= |t| :: FullMatch(p, t[..n])
  {
    if p == [] {
      assert FullMatch([], t[|t|..]);
      assert FullMatch([], t[..0]);
    } else {
      assert (p + ["**"])[1..] == p[1..] + ["**"];
      if p[0] == "**" {
        forall k | 0 <= k <= |t|
          ensures FullMatch(p[1..] + ["**"], t[k..]) <==>
                  exists n | 0 <= n <= |t[k..]| :: FullMatch(p[1..], t[k..][..n])
        {
          TrailingStarsFull(p[1..], t[k..]);
        }
        PrefixMatchStars(p, t, true);
      } else if t != [] {
        TrailingStarsFull(p[1..], t[1..]);
        PrefixMatchStep(p, t, true);
      }
      assert PrefixMatch(p, t, true) <==> exists n | 0 <= n <= |t| :: FullMatch(p, t[..n]);
    }
  }

  // The same promise for pattern and path as written.
  lemma {:induction false} SubtreePattern(dir: string, path: string)
    ensures Matches(dir + "/**", path) <==>
              TrimSpace(path) != "" &&
              exists n | 0 <= n <= |Segments(TrimSpace(path))| ::
                FullMatch(Segments(dir), Segments(TrimSpace(path))[..n])
  {
    var pattern := dir + "/**";
    assert pattern == dir + "/" + "**";
    assert pattern[|pattern| - 1] == '*' && pattern[|pattern| - 2] == '*' && pattern[|pattern| - 3] == '/';
    SegmentsConcat(dir, "**");
    SplitOfPlain("**", '/');
    assert Tokens(["**"]) == ["**"];
    var trimmed := TrimSpace(path);
    TrailingStarsCoverSubtree(Segments(dir), Segments(trimmed), HasSuffix(trimmed, "/"));
  }

  // ---- patterns and paths as written ------------------------------------------------------

  predicate Blank(s: string) {
    forall i :: 0 <= i < |s| ==> IsSpace(s[i])
  }

  // t is s without the white space around it.
  ghost predicate Trims(s: string, t: string) {
    && (t != "" ==> !IsSpace(t[0]) && !IsSpace(t[|t| - 1]))
    && exists a, b :: Blank(a) && Blank(b) && s == a + t + b
  }

  // Trimming takes away white space at both ends, all of it and nothing else.
  lemma {:induction false} TrimSpaceTrims(s: string)
    ensures Trims(s, TrimSpace(s))
  {
    if s == "" || (!IsSpace(s[0]) && !IsSpace(s[|s| - 1])) {
      assert Blank("") && s == "" + s + "";
    } else if IsSpace(s[0]) {
      TrimSpaceTrims(s[1..]);
      TrimsLeft(s[0], s[1..], TrimSpace(s));
      assert [s[0]] + s[1..] == s;
    } else {
      var init, last := s[..|s| - 1], s[|s| - 1];
      TrimSpaceTrims(init);
      TrimsRight(init, last, TrimSpace(s));
      assert init + [last] == s;
    }
  }

  lemma TrimsLeft(c: char, s: string, t: string)
    requires IsSpace(c) && Trims(s, t)
    ensures Trims([c] + s, t)
  {
    var a, b :| Blank(a) && Blank(b) && s == a + t + b;
    Assoc([c], a + t, b);
    Assoc([c], a, t);
    assert Blank([c] + a) && [c] + s == ([c] + a) + t + b;
  }

  lemma TrimsRight(s: string, c: char, t: string)
    requires IsSpace(c) && Trims(s, t)
    ensures Trims(s + [c], t)
  {
    var a, b :| Blank(a) && Blank(b) && s == a + t + b;
    Assoc(a + t, b, [c]);
    assert Blank(b + [c]) && s + [c] == a + t + (b + [c]);
  }

  // A part without a slash is one segment, trimmed, or none when it is blank.
  lemma SegmentsOfPlain(s: string)
    requires '/' !in s
    ensures Segments(s) == if TrimSpace(s) == "" then [] else [TrimSpace(s)]
  {
    SplitOfPlain(s, '/');
    assert [s][1..] == [];
    assert Token(s) + [] == Token(s);
  }

  /** A pattern matches a path exactly when it is one of the three that match everything,
      or the path is not blank and some prefix of its segments matches in full: all of them,
      or, for a path that ends in a slash, fewer, if the pattern's last segment has no star. */
  lemma MatchesExactly(pattern: string, path: string, trimmed: string)
    requires trimmed == TrimSpace(path)
    ensures Trims(path, trimmed)
    ensures Matches(pattern, path) <==>
            || pattern in {"", "**", "**/*"}
            || (trimmed != "" &&
                exists n :: 0 <= n <= |Segments(trimmed)| && FullMatch(Segments(pattern), Segments(trimmed)[..n]) &&
                            (n == |Segments(trimmed)| ||
                             (trimmed[|trimmed| - 1] == '/' && Segments(pattern) != [] &&
                              '*' !in Segments(pattern)[|Segments(pattern)| - 1])))
  {
    TrimSpaceTrims(path);
    if trimmed != "" {
      assert HasSuffix(trimmed, "/") <==> trimmed[|trimmed| - 1] == '/';
    }
  }
}
