/** Artifact paths on the wire: the client prints them (internal/client) and the
    server parses them (internal/adapter/layout.go). A Go string is a sequence of
    bytes, written here as characters below 256; the definitions extend to all
    characters, so the laws need no side condition on them. */
module ContentPath {
  import opened Text

  type Props = map<string, seq<string>>

  const MAX_REPO_KEY_LEN := 63
  const MAX_REL_PATH_LEN := 512
  const MAX_PROP_KEY_LEN := 64
  const MAX_PROP_VALUE_LEN := 1024
  const MAX_NODE_PROP_KEYS := 64
  const MAX_PROP_VALUES := 32

  // ---- percent-encoding (section 2.1 of RFC 3986) -------------------------------

  // The bytes url.PathEscape leaves alone in a path segment.
  predicate IsKept(c: char) {
    c as int >= 256 || IsAlnum(c) || c in {'-', '_', '.', '~', '$', '&', '+', ':', '=', '@'}
  }

  function HexDigit(n: int): char
    requires 0 <= n < 16
  {
    if n < 10 then ('0' as int + n) as char else ('A' as int + n - 10) as char
  }

  function EscapeByte(c: char): string {
    if IsKept(c) then [c] else ['%', HexDigit(c as int / 16), HexDigit(c as int % 16)]
  }

  // url.PathEscape
  function PathEscape(s: string): string {
    if s == [] then [] else EscapeByte(s[0]) + PathEscape(s[1..])
  }

  // url.PathUnescape; None for a malformed escape
  function PathUnescape(s: string): Option<string> {
    if s == [] then Some([])
    else if s[0] == '%' then
      if |s| < 3 || HexValue(s[1]).None? || HexValue(s[2]).None? then None
      else
        var c: char := (HexValue(s[1]).value * 16 + HexValue(s[2]).value) as char;
        match PathUnescape(s[3..])
        case None => None
        case Some(rest) => Some([c] + rest)
    else
      match PathUnescape(s[1..])
      case None => None
      case Some(rest) => Some([s[0]] + rest)
  }

  lemma UnescapeByte(c: char, tail: string)
    requires PathUnescape(tail).Some?
    ensures PathUnescape(EscapeByte(c) + tail) == Some([c] + PathUnescape(tail).value)
  {
    var e := EscapeByte(c);
    assert (e + tail)[|e|..] == tail;
    if !IsKept(c) {
      var hi, lo := HexDigit(c as int / 16), HexDigit(c as int % 16);
      assert (e + tail)[0] == '%' && (e + tail)[1] == hi && (e + tail)[2] == lo;
      assert HexValue(hi) == Some(c as int / 16) && HexValue(lo) == Some(c as int % 16);
    } else {
      assert (e + tail)[0] == c != '%';
    }
  }

  // Decoding undoes escaping, in front of anything that decodes.
  lemma {:induction false} UnescapeAfterEscape(s: string, t: string)
    requires PathUnescape(t).Some?
    ensures PathUnescape(PathEscape(s) + t) == Some(s + PathUnescape(t).value)
  {
    if s == [] {
      assert PathEscape(s) + t == t && s + PathUnescape(t).value == PathUnescape(t).value;
    } else {
      UnescapeAfterEscape(s[1..], t);
      UnescapeByte(s[0], PathEscape(s[1..]) + t);
      Assoc(EscapeByte(s[0]), PathEscape(s[1..]), t);
      Assoc([s[0]], s[1..], PathUnescape(t).value);
      assert s == [s[0]] + s[1..];
    }
  }

  // ---- the client's printer ------------------------------------------------------

  function EscapeAll(segs: seq<string>): seq<string> {
    if segs == [] then [] else [PathEscape(segs[0])] + EscapeAll(segs[1..])
  }

  function EscapedSegments(path: string): string {
    Join(EscapeAll(Split(path, '/')), '/')
  }

  lemma {:induction false} EscapeAllByIndex(segs: seq<string>)
    ensures |EscapeAll(segs)| == |segs|
    ensures forall i :: 0 <= i < |segs| ==> EscapeAll(segs)[i] == PathEscape(segs[i])
  {
    if segs != [] {
      EscapeAllByIndex(segs[1..]);
    }
  }

  method EscapePathSegments(path: string) returns (out: string)
    ensures out == EscapedSegments(path)
  {
    var raw := Split(path, '/');
    var segs := raw;
    for i := 0 to |segs|
      invariant |segs| == |raw|
      invariant forall j :: 0 <= j < i ==> segs[j] == PathEscape(raw[j])
      invariant forall j :: i <= j < |segs| ==> segs[j] == raw[j]
    {
      segs := segs[i := PathEscape(segs[i])];
    }
    EscapeAllByIndex(raw);
    assert segs == EscapeAll(raw);
    out := Join(segs, '/');
  }

  function TrimLeadingSlash(s: string): string {
    if HasPrefix(s, "/") then s[1..] else s
  }

  // The request path below the /binflow prefix.
  function ContentPlanePath(repo: string, nodePath: string): string {
    "/" + PathEscape(repo) + "/" + EscapedSegments(TrimLeadingSlash(nodePath))
  }

  lemma UnescapeSlash(t: string, plain: string)
    requires PathUnescape(t) == Some(plain)
    ensures PathUnescape(['/'] + t) == Some(['/'] + plain)
  {
    assert (['/'] + t)[1..] == t;
  }

  // One escaped segment, a slash, and the rest.
  lemma UnescapeSegment(seg: string, rest: string, plain: string)
    requires PathUnescape(rest) == Some(plain)
    ensures PathUnescape(PathEscape(seg) + ['/'] + rest) == Some(seg + ['/'] + plain)
  {
    UnescapeSlash(rest, plain);
    UnescapeAfterEscape(seg, ['/'] + rest);
    Assoc(PathEscape(seg), ['/'], rest);
    Assoc(seg, ['/'], plain);
  }

  lemma {:induction false} UnescapeJoined(segs: seq<string>)
    ensures PathUnescape(Join(EscapeAll(segs), '/')) == Some(Join(segs, '/'))
  {
    if |segs| == 1 {
      assert EscapeAll(segs) == [PathEscape(segs[0])];
      UnescapeAfterEscape(segs[0], "");
      assert PathEscape(segs[0]) + "" == PathEscape(segs[0]) && segs[0] + "" == segs[0];
    } else if |segs| > 1 {
      var rest := EscapeAll(segs[1..]);
      EscapeAllByIndex(segs);
      assert EscapeAll(segs) == [PathEscape(segs[0])] + rest;
      assert EscapeAll(segs)[1..] == rest;
      UnescapeJoined(segs[1..]);
      UnescapeSegment(segs[0], Join(rest, '/'), Join(segs[1..], '/'));
    }
  }

  // ---- the server's parser ---------------------------------------------------------

  function TrimTrailingSlash(s: string): string {
    if HasSuffix(s, "/") then s[..|s| - 1] else s
  }

  // validateRelPath
  predicate ValidRelPath(rel: string) {
    rel != [] && |rel| <= MAX_REL_PATH_LEN && '\\' !in rel && (forall i | 0 <= i < |rel| :: !IsControl(rel[i])) &&
    var body := TrimTrailingSlash(rel);
    body != [] && forall seg | seg in Split(body, '/') :: seg != [] && seg != "." && seg != ".."
  }

  predicate IsReserved(key: string) { key == "api" || key == "v2" }

  function SplitRepoPath(decoded: string): Option<(string, string)> {
    var p := TrimLeadingSlash(decoded);
    var (key, rest, found) := Cut(p, '/');
    if !found || key == [] || |key| > MAX_REPO_KEY_LEN || IsReserved(key) || !ValidRelPath(rest) then None
    else Some((key, rest))
  }

  // Everything from the first ';' is a matrix region when each of its segments holds '='.
  predicate HasMatrixRegion(s: string) {
    ';' in s && forall seg | seg in Split(Cut(s, ';').1, ';') :: '=' in seg
  }

  function SplitMatrixParams(decoded: string): (string, string) {
    if HasMatrixRegion(decoded) then (Cut(decoded, ';').0, ";" + Cut(decoded, ';').1) else (decoded, [])
  }

  predicate ValidPropKey(key: string) {
    0 < |key| <= MAX_PROP_KEY_LEN &&
    ('a' <= key[0] <= 'z' || 'A' <= key[0] <= 'Z') &&
    forall i | 0 < i < |key| :: IsAlnum(key[i]) || key[i] in {'_', '.', '-'}
  }

  predicate ValidPropValue(value: string) {
    0 < |value| <= MAX_PROP_VALUE_LEN && forall i | 0 <= i < |value| :: !IsControl(value[i])
  }

  predicate ValidPropSet(props: Props) {
    |props| <= MAX_NODE_PROP_KEYS &&
    forall k | k in props ::
      ValidPropKey(k) && |props[k]| <= MAX_PROP_VALUES &&
      (forall i | 0 <= i < |props[k]| :: ValidPropValue(props[k][i])) &&
      forall i, j | 0 <= i < j < |props[k]| :: props[k][i] != props[k][j]
  }

  predicate ValidSegment(seg: string) {
    var (key, value, found) := Cut(seg, '=');
    found && ValidPropKey(key) && ValidPropValue(value)
  }

  // The values given to key k, in the order of the segments.
  function ValuesFor(segs: seq<string>, k: string): seq<string> {
    if segs == [] then []
    else
      var last := segs[|segs| - 1];
      ValuesFor(segs[..|segs| - 1], k) + (if Cut(last, '=').0 == k then [Cut(last, '=').1] else [])
  }

  // The multimap of ";k=v" segments: every segment contributes one value to its key.
  predicate Collects(props: Props, segs: seq<string>) {
    (forall i | 0 <= i < |segs| :: Cut(segs[i], '=').0 in props) &&
    forall k | k in props :: props[k] == ValuesFor(segs, k) && props[k] != []
  }

  function RegionSegments(matrix: string): seq<string> {
    Split(if HasPrefix(matrix, ";") then matrix[1..] else matrix, ';')
  }

  lemma {:induction false} ValuesForAbsent(segs: seq<string>, k: string)
    requires forall i :: 0 <= i < |segs| ==> Cut(segs[i], '=').0 != k
    ensures ValuesFor(segs, k) == []
  {
    if segs != [] {
      ValuesForAbsent(segs[..|segs| - 1], k);
    }
  }

  // props[key] = append(props[key], value)
  function AddValue(props: Props, key: string, value: string): Props {
    props[key := (if key in props then props[key] else []) + [value]]
  }

  lemma ValuesForSnoc(segs: seq<string>, seg: string, k: string)
    ensures ValuesFor(segs + [seg], k) ==
              ValuesFor(segs, k) + if Cut(seg, '=').0 == k then [Cut(seg, '=').1] else []
  {
    assert (segs + [seg])[..|segs|] == segs;
  }

  lemma CollectsSnoc(props: Props, segs: seq<string>, seg: string)
    requires Collects(props, segs)
    ensures Collects(AddValue(props, Cut(seg, '=').0, Cut(seg, '=').1), segs + [seg])
  {
    var key, value := Cut(seg, '=').0, Cut(seg, '=').1;
    var props' := AddValue(props, key, value);
    var more := segs + [seg];
    forall k | k in props' ensures props'[k] == ValuesFor(more, k) && props'[k] != [] {
      ValuesForSnoc(segs, seg, k);
      if k == key && key !in props {
        ValuesForAbsent(segs, key);
      }
    }
    forall i | 0 <= i < |more| ensures Cut(more[i], '=').0 in props' {
      assert i < |segs| ==> more[i] == segs[i];
    }
  }

  // A multimap is determined by the segments it collects.
  lemma CollectsUnique(a: Props, b: Props, segs: seq<string>)
    requires Collects(a, segs) && Collects(b, segs)
    ensures a == b
  {
    forall k ensures k in a <==> k in b {
      if forall i :: 0 <= i < |segs| ==> Cut(segs[i], '=').0 != k {
        ValuesForAbsent(segs, k);
      }
    }
  }

  // The region's verdict: refused, or the multimap it spells.
  ghost predicate Parses(matrix: string, r: Option<Props>) {
    if matrix == "" then r == Some(map[])
    else if exists seg :: seg in RegionSegments(matrix) && !ValidSegment(seg) then r.None?
    else
      exists props :: Collects(props, RegionSegments(matrix)) &&
        r == if ValidPropSet(props) then Some(props) else None
  }

  // props holds the first n segments, all of them legal.
  ghost predicate CollectedUpTo(props: Props, segs: seq<string>, n: int)
    requires 0 <= n <= |segs|
  {
    Collects(props, segs[..n]) && forall j :: 0 <= j < n ==> ValidSegment(segs[j])
  }

  lemma CollectNext(props: Props, segs: seq<string>, i: int)
    requires 0 <= i < |segs| && CollectedUpTo(props, segs, i) && ValidSegment(segs[i])
    ensures CollectedUpTo(AddValue(props, Cut(segs[i], '=').0, Cut(segs[i], '=').1), segs, i + 1)
  {
    CollectsSnoc(props, segs[..i], segs[i]);
    assert segs[..i + 1] == segs[..i] + [segs[i]];
  }

  method CollectProps(segs: seq<string>) returns (r: Option<Props>)
    ensures r.None? ==> exists i :: 0 <= i < |segs| && !ValidSegment(segs[i])
    ensures r.Some? ==> CollectedUpTo(r.value, segs, |segs|)
  {
    var props: Props := map[];
    for i := 0 to |segs|
      invariant CollectedUpTo(props, segs, i)
    {
      var (key, value, found) := Cut(segs[i], '=');
      if !found || !ValidPropKey(key) || !ValidPropValue(value) {
        assert !ValidSegment(segs[i]);
        return None;
      }
      CollectNext(props, segs, i);
      props := AddValue(props, key, value);
    }
    return Some(props);
  }

  method ParseMatrixProps(matrix: string) returns (r: Option<Props>)
    ensures Parses(matrix, r)
  {
    if matrix == "" {
      return Some(map[]);
    }
    var segs := RegionSegments(matrix);
    r := CollectProps(segs);
    assert segs[..|segs|] == segs;
    if r.Some? && !ValidPropSet(r.value) {
      return None;
    }
  }

  lemma ParsesUnique(matrix: string, r: Option<Props>, r': Option<Props>)
    requires Parses(matrix, r) && Parses(matrix, r')
    ensures r == r'
  {
    forall p, p' | Collects(p, RegionSegments(matrix)) && Collects(p', RegionSegments(matrix)) ensures p == p' {
      CollectsUnique(p, p', RegionSegments(matrix));
    }
  }

  datatype Resolved = Resolved(key: string, rel: string, props: Props)

  // What a request path resolves to, None for a refusal.
  ghost predicate Resolves(raw: string, r: Option<Resolved>) {
    match PathUnescape(raw)
    case None => r.None?
    case Some(decoded) =>
      var (clean, matrix) := SplitMatrixParams(decoded);
      var addressed := SplitRepoPath(clean);
      exists props :: Parses(matrix, props) &&
        r == if props.None? || addressed.None? then None
             else Some(Resolved(addressed.value.0, addressed.value.1, props.value))
  }

  method ResolveContent(raw: string) returns (r: Option<Resolved>)
    ensures Resolves(raw, r)
  {
    var decoded := PathUnescape(raw);
    if decoded.None? {
      return None;
    }
    var (clean, matrix) := SplitMatrixParams(decoded.value);
    var props := ParseMatrixProps(matrix);
    if props.None? {
      return None;
    }
    var addressed := SplitRepoPath(clean);
    if addressed.None? {
      return None;
    }
    return Some(Resolved(addressed.value.0, addressed.value.1, props.value));
  }

  // Every raw path has exactly one answer.
  lemma ResolvesUnique(raw: string, r: Option<Resolved>, r': Option<Resolved>)
    requires Resolves(raw, r) && Resolves(raw, r')
    ensures r == r'
  {
    if PathUnescape(raw).Some? {
      var matrix := SplitMatrixParams(PathUnescape(raw).value).1;
      forall p, p' | Parses(matrix, p) && Parses(matrix, p') ensures p == p' {
        ParsesUnique(matrix, p, p');
      }
    }
  }

  // ---- round trip --------------------------------------------------------------------

  predicate LegalKey(key: string) {
    0 < |key| <= MAX_REPO_KEY_LEN && '/' !in key && ';' !in key && !IsReserved(key)
  }

  lemma ValidRelPathHead(rel: string)
    requires ValidRelPath(rel)
    ensures rel[0] != '/'
  {
    var body := TrimTrailingSlash(rel);
    assert Split(body, '/')[0] in Split(body, '/');
    assert body[0] == rel[0];
  }

  // The server decodes the client's spelling back to the path that was printed.
  lemma DecodesToPrinted(key: string, rel: string)
    requires ValidRelPath(rel)
    ensures PathUnescape(ContentPlanePath(key, rel)) == Some("/" + key + "/" + rel)
  {
    var tail := EscapedSegments(rel);
    assert TrimLeadingSlash(rel) == rel by { ValidRelPathHead(rel); }
    assert PathUnescape(tail) == Some(rel) by {
      UnescapeJoined(Split(rel, '/'));
      JoinOfSplit(rel, '/');
    }
    UnescapeSegment(key, tail, rel);
    UnescapeSlash(PathEscape(key) + ['/'] + tail, key + ['/'] + rel);
    Spelling(PathEscape(key), tail);
    Spelling(key, rel);
  }

  lemma Spelling(key: string, rel: string)
    ensures ['/'] + (key + ['/'] + rel) == "/" + key + "/" + rel
  {
  }

  lemma MatrixRegionIsInRel(key: string, rel: string)
    requires LegalKey(key)
    ensures HasMatrixRegion("/" + key + "/" + rel) <==> HasMatrixRegion(rel)
    ensures Cut("/" + key + "/" + rel, ';') == ("/" + key + "/" + Cut(rel, ';').0, Cut(rel, ';').1, Cut(rel, ';').2)
  {
    CutAfter("/" + key + "/", rel, ';');
  }

  lemma SplitsAtKey(key: string, rel: string)
    requires LegalKey(key)
    ensures SplitRepoPath("/" + key + "/" + rel) == if ValidRelPath(rel) then Some((key, rel)) else None
  {
    var p := key + ("/" + rel);
    assert "/" + key + "/" + rel == "/" + p;
    assert ("/" + p)[1..] == p;
    CutAfter(key, "/" + rel, '/');
    assert Cut("/" + rel, '/') == ([], rel, true);
    assert key + [] == key;
  }

  /** For every legal key and every accepted path the client's spelling resolves to
      exactly that key and path with no properties if and only if the path ends in
      no matrix region. */
  lemma RoundTrip(key: string, rel: string)
    requires LegalKey(key) && ValidRelPath(rel)
    ensures Resolves(ContentPlanePath(key, rel), Some(Resolved(key, rel, map[]))) <==> !HasMatrixRegion(rel)
  {
    DecodesToPrinted(key, rel);
    MatrixRegionIsInRel(key, rel);
    ResolvesDecoded(ContentPlanePath(key, rel), "/" + key + "/" + rel, key, rel, map[]);
    if HasMatrixRegion(rel) {
      var shorter := Cut(rel, ';').0;
      SplitsAtKey(key, shorter);
      assert |shorter| < |rel|;
    } else {
      SplitsAtKey(key, rel);
    }
  }

  // A decoded path resolves to an address and properties exactly when it splits into that
  // address and its region parses to those.
  lemma ResolvesDecoded(raw: string, decoded: string, key: string, rel: string, props: Props)
    requires PathUnescape(raw) == Some(decoded)
    ensures Resolves(raw, Some(Resolved(key, rel, props))) <==>
            SplitRepoPath(SplitMatrixParams(decoded).0) == Some((key, rel)) &&
            Parses(SplitMatrixParams(decoded).1, Some(props))
  {
  }

  // A path outside the condition: the client escapes its ';' and the server peels the
  // region all the same.
  lemma MatrixRegionExample() returns (rel: string)
    ensures rel == ['a', ';', 'x', '=', '1'] && ValidRelPath(rel) && HasMatrixRegion(rel)
  {
    var region := ['x', '=', '1'];
    rel := ['a', ';'] + region;
    SplitOfPlain(rel, '/');
    CutUnique(rel, ';', (['a'], region, true));
    SplitOfPlain(region, ';');
  }

  // ---- lossless and safe ---------------------------------------------------------------

  /** Parsing loses nothing: key, path and region rebuild the decoded request path up
      to one leading slash, and the properties hold the value of every region segment
      once, in order per key. */
  lemma Lossless(raw: string, r: Resolved)
    requires Resolves(raw, Some(r))
    ensures PathUnescape(raw).Some?
    ensures var decoded := PathUnescape(raw).value;
            var matrix := SplitMatrixParams(decoded).1;
            && (decoded == r.key + "/" + r.rel + matrix || decoded == "/" + r.key + "/" + r.rel + matrix)
            && (if matrix == "" then r.props == map[] else Collects(r.props, RegionSegments(matrix)))
  {
    var decoded := PathUnescape(raw).value;
    var (clean, matrix) := SplitMatrixParams(decoded);
    RegionIsSuffix(decoded);
    KeyAndPathRebuild(clean, r.key, r.rel);
    assert ("/" + r.key + "/" + r.rel) + matrix == "/" + r.key + "/" + r.rel + matrix;
  }

  lemma RegionIsSuffix(decoded: string)
    ensures SplitMatrixParams(decoded).0 + SplitMatrixParams(decoded).1 == decoded
  {
    var r := Cut(decoded, ';');
    assert r.0 + (";" + r.1) == r.0 + [';'] + r.1;
    assert decoded + "" == decoded;
  }

  lemma KeyAndPathRebuild(clean: string, key: string, rel: string)
    requires SplitRepoPath(clean) == Some((key, rel))
    ensures clean == key + "/" + rel || clean == "/" + key + "/" + rel
  {
    var p := TrimLeadingSlash(clean);
    assert p == key + ['/'] + rel;
    assert clean == p || clean == ['/'] + p;
    Spelling(key, rel);
  }

  /** Whatever the encoding of the request, no segment of a resolved path is empty,
      "." or "..", and the key is one non-reserved segment. */
  lemma ResolvedPathIsSafe(raw: string, r: Resolved, i: int, j: int)
    requires Resolves(raw, Some(r))
    requires SegmentAt(TrimTrailingSlash(r.rel), '/', i, j)
    ensures var seg := TrimTrailingSlash(r.rel)[i..j]; seg != "" && seg != "." && seg != ".."
    ensures r.key != "" && '/' !in r.key && !IsReserved(r.key) && |r.key| <= MAX_REPO_KEY_LEN
  {
    AddressIsValid(SplitMatrixParams(PathUnescape(raw).value).0, r.key, r.rel);
    SegmentIsSafe(r.rel, i, j);
  }

  lemma AddressIsValid(clean: string, key: string, rel: string)
    requires SplitRepoPath(clean) == Some((key, rel))
    ensures ValidRelPath(rel)
    ensures key != "" && '/' !in key && !IsReserved(key) && |key| <= MAX_REPO_KEY_LEN
  {
  }

  lemma SegmentIsSafe(rel: string, i: int, j: int)
    requires ValidRelPath(rel) && SegmentAt(TrimTrailingSlash(rel), '/', i, j)
    ensures var seg := TrimTrailingSlash(rel)[i..j]; seg != "" && seg != "." && seg != ".."
  {
    SegmentIsPart(TrimTrailingSlash(rel), '/', i, j);
  }

  // ---- the parser, rule by rule --------------------------------------------------------------

  lemma HexExactly(c: char, n: int)
    ensures HexValue(c) == Some(n) <==>
            && 0 <= n < 16
            && (c == ['0', '1', '2', '3', '4', '5', '6', '7', '8', '9', 'A', 'B', 'C', 'D', 'E', 'F'][n] ||
                c == ['0', '1', '2', '3', '4', '5', '6', '7', '8', '9', 'a', 'b', 'c', 'd', 'e', 'f'][n])
  {
  }

  // A percent sign that two hexadecimal digits do not follow.
  predicate BadEscapeAt(s: string, i: int) {
    0 <= i < |s| && s[i] == '%' && !(i + 2 < |s| && HexValue(s[i + 1]).Some? && HexValue(s[i + 2]).Some?)
  }

  // Decoding fails exactly when some percent sign is not followed by two digits.
  lemma {:induction false} UnescapeFailsExactly(s: string)
    ensures PathUnescape(s).None? <==> exists i :: BadEscapeAt(s, i)
  {
    if s != "" {
      var n := if s[0] != '%' then 1 else 3;
      if BadEscapeAt(s, 0) {
      } else {
        assert n <= |s|;
        UnescapeFailsExactly(s[n..]);
        if i :| BadEscapeAt(s[n..], i) {
          assert BadEscapeAt(s, i + n);
        }
        if i :| BadEscapeAt(s, i) {
          assert i >= n;
          assert BadEscapeAt(s[n..], i - n);
        }
      }
    }
  }

  // Unreserved characters and the few others a segment may hold are not escaped.
  lemma {:induction false} EscapeLeavesPlain(s: string)
    requires forall i :: 0 <= i < |s| ==>
               'a' <= s[i] <= 'z' || 'A' <= s[i] <= 'Z' || '0' <= s[i] <= '9' ||
               s[i] in {'-', '_', '.', '~', '$', '&', '+', ':', '=', '@'}
    ensures PathEscape(s) == s
  {
    if s != "" {
      EscapeLeavesPlain(s[1..]);
      assert [s[0]] + s[1..] == s;
    }
  }

  // Whatever else there is of one byte is escaped: the result holds nothing but those
  // characters and percent signs.
  lemma {:induction false} EscapeHidesTheRest(s: string, c: char)
    requires (forall i :: 0 <= i < |s| ==> s[i] as int < 256) && c in PathEscape(s)
    ensures 'a' <= c <= 'z' || 'A' <= c <= 'Z' || '0' <= c <= '9' ||
            c in {'-', '_', '.', '~', '$', '&', '+', ':', '=', '@', '%'}
  {
    if c in EscapeByte(s[0]) {
    } else {
      EscapeHidesTheRest(s[1..], c);
    }
  }

  predicate PlainChar(c: char) {
    c != '\\' && c as int >= 0x20 && c as int != 0x7F
  }

  /** An artifact path is accepted exactly when it has 1 to 512 characters, none of them a
      backslash or a control, and, one trailing slash aside, is not empty and has no empty,
      "." or ".." segment. */
  lemma RelPathExactly(rel: string)
    ensures ValidRelPath(rel) <==>
            && 0 < |rel| <= 512 && (forall i :: 0 <= i < |rel| ==> PlainChar(rel[i]))
            && var body := if rel[|rel| - 1] == '/' then rel[..|rel| - 1] else rel;
            && body != "" && forall i, j :: SegmentAt(body, '/', i, j) ==> body[i..j] !in {"", ".", ".."}
  {
    if rel != "" {
      var body := if rel[|rel| - 1] == '/' then rel[..|rel| - 1] else rel;
      assert TrimTrailingSlash(rel) == body;
      SegmentsExactly(body);
      PlainChars(rel);
      assert ValidRelPath(rel) <==>
          && |rel| <= 512 && (forall i :: 0 <= i < |rel| ==> PlainChar(rel[i]))
          && body != "" && (forall seg :: seg in Split(body, '/') ==> seg != [] && seg != "." && seg != "..");
    }
  }

  lemma PlainChars(s: string)
    ensures (forall i :: 0 <= i < |s| ==> PlainChar(s[i])) <==>
            '\\' !in s && forall i :: 0 <= i < |s| ==> !IsControl(s[i])
  {
    forall i | 0 <= i < |s| ensures PlainChar(s[i]) <==> s[i] != '\\' && !IsControl(s[i]) {
    }
    if '\\' in s {
      var i :| 0 <= i < |s| && s[i] == '\\';
      assert !PlainChar(s[i]);
    }
  }

  lemma SegmentsExactly(body: string)
    ensures (forall seg :: seg in Split(body, '/') ==> seg != [] && seg != "." && seg != "..") <==>
            forall i, j :: SegmentAt(body, '/', i, j) ==> body[i..j] !in {"", ".", ".."}
  {
    if seg :| seg in Split(body, '/') && !(seg != [] && seg != "." && seg != "..") {
      var p :| 0 <= p < |Split(body, '/')| && Split(body, '/')[p] == seg;
      var i, j := PartIsSegment(body, '/', p);
    }
    forall i, j | SegmentAt(body, '/', i, j) ensures body[i..j] in Split(body, '/') {
      SegmentIsPart(body, '/', i, j);
    }
  }

  // clean is key and rel with a slash between and perhaps one before, both of them legal.
  ghost predicate Addresses(clean: string, key: string, rel: string) {
    && (clean == key + ['/'] + rel || clean == ['/'] + key + ['/'] + rel)
    && 0 < |key| <= 63 && '/' !in key && key != "api" && key != "v2" && ValidRelPath(rel)
  }

  lemma AddressExactly(clean: string, key: string, rel: string)
    ensures SplitRepoPath(clean) == Some((key, rel)) <==> Addresses(clean, key, rel)
  {
    if Addresses(clean, key, rel) {
      AddressSplits(clean, key, rel);
    }
    if SplitRepoPath(clean) == Some((key, rel)) {
      KeyAndPathRebuild(clean, key, rel);
      AddressIsValid(clean, key, rel);
    }
  }

  lemma AddressSplits(clean: string, key: string, rel: string)
    requires Addresses(clean, key, rel)
    ensures SplitRepoPath(clean) == Some((key, rel))
  {
    var p := key + ['/'] + rel;
    if clean == ['/'] + key + ['/'] + rel {
      assert clean == ['/'] + p && clean[1..] == p;
    } else {
      assert clean[0] == key[0];
    }
    assert TrimLeadingSlash(clean) == p;
    CutUnique(p, '/', (key, rel, true));
  }

  // Everything after the first ';' comes in segments that hold '='.
  ghost predicate PairsFollow(decoded: string) {
    ';' in decoded && forall i, j :: SegmentAt(decoded, ';', i, j) && i > 0 ==> '=' in decoded[i..j]
  }

  lemma RegionExactly(decoded: string)
    ensures HasMatrixRegion(decoded) <==> PairsFollow(decoded)
  {
    if ';' in decoded {
      var r := Cut(decoded, ';');
      SplitOfPlain(r.0, ';');
      SplitConcat(r.0, r.1, ';');
      var parts, rest := Split(decoded, ';'), Split(r.1, ';');
      assert parts == [r.0] + rest;
      if HasMatrixRegion(decoded) {
        forall i, j | SegmentAt(decoded, ';', i, j) && i > 0 ensures '=' in decoded[i..j] {
          LaterSegment(decoded, r.0, r.1, i, j);
        }
      }
      if PairsFollow(decoded) {
        forall seg | seg in rest ensures '=' in seg {
          var p :| 0 <= p < |rest| && rest[p] == seg;
          var i, j := PartIsSegment(decoded, ';', p + 1);
        }
      }
    }
  }

  // A segment that is not the first is a part of what follows the first separator.
  lemma LaterSegment(s: string, a: string, b: string, i: int, j: int)
    requires s == a + [';'] + b && ';' !in a && SegmentAt(s, ';', i, j) && i > 0
    ensures s[i..j] in Split(b, ';')
  {
    var n := |a| + 1;
    assert forall k :: 0 <= k < |a| ==> s[k] == a[k] && a[k] in a;
    assert b == s[n..];
    SliceSlice(s, n, |s|, i - n, j - n);
    assert s[n..|s|] == b;
    assert j < |s| ==> b[j - n] == s[j];
    assert i > n ==> b[i - n - 1] == s[i - 1];
    SegmentIsPart(b, ';', i - n, j - n);
  }

  // The decoded path is cut before its region, if pairs follow, and not at all otherwise.
  ghost predicate Peels(clean: string, matrix: string) {
    if PairsFollow(clean + matrix) then ';' !in clean && matrix != "" && matrix[0] == ';' else matrix == ""
  }

  lemma PeelExactly(decoded: string, clean: string, matrix: string)
    ensures SplitMatrixParams(decoded) == (clean, matrix) <==> decoded == clean + matrix && Peels(clean, matrix)
  {
    if decoded == clean + matrix && Peels(clean, matrix) {
      PeelsSplits(clean, matrix);
    }
    if SplitMatrixParams(decoded) == (clean, matrix) {
      RegionIsSuffix(decoded);
      RegionExactly(decoded);
    }
  }

  lemma PeelsSplits(clean: string, matrix: string)
    requires Peels(clean, matrix)
    ensures SplitMatrixParams(clean + matrix) == (clean, matrix)
  {
    var decoded := clean + matrix;
    RegionExactly(decoded);
    if PairsFollow(decoded) {
      assert matrix == [';'] + matrix[1..];
      assert decoded == clean + [';'] + matrix[1..];
      CutUnique(decoded, ';', (clean, matrix[1..], true));
    } else {
      assert decoded == clean;
    }
  }

  // seg is key = value, with a key of 1 to 64 letters, digits, '_', '.' and '-' that opens
  // with a letter, and a value of 1 to 1024 characters without controls.
  ghost predicate LegalPair(seg: string, key: string, value: string) {
    && seg == key + ['='] + value
    && 0 < |key| <= 64 && ('a' <= key[0] <= 'z' || 'A' <= key[0] <= 'Z')
    && (forall i :: 0 <= i < |key| ==>
          'a' <= key[i] <= 'z' || 'A' <= key[i] <= 'Z' || '0' <= key[i] <= '9' || key[i] in {'_', '.', '-'})
    && 0 < |value| <= 1024 && (forall i :: 0 <= i < |value| ==> value[i] as int >= 0x20 && value[i] as int != 0x7F)
  }

  lemma SegmentExactly(seg: string, key: string, value: string)
    ensures ValidSegment(seg) && Cut(seg, '=') == (key, value, true) <==> LegalPair(seg, key, value)
  {
    if LegalPair(seg, key, value) {
      assert forall i :: 0 <= i < |key| ==> key[i] != '=';
      CutUnique(seg, '=', (key, value, true));
    }
  }

  // The values of key k among the segments, in order: the segments number idx[0], idx[1],
  // ... and no others have that key.
  ghost predicate ListsValues(segs: seq<string>, k: string, values: seq<string>, idx: seq<int>) {
    && |idx| == |values|
    && (forall n :: 0 <= n < |idx| ==> 0 <= idx[n] < |segs| && Cut(segs[idx[n]], '=').0 == k &&
                                       Cut(segs[idx[n]], '=').1 == values[n])
    && (forall m, n :: 0 <= m < n < |idx| ==> idx[m] < idx[n])
    && (forall i :: 0 <= i < |segs| && Cut(segs[i], '=').0 == k ==> i in idx)
  }

  lemma {:induction false} ValuesInOrder(segs: seq<string>, k: string) returns (idx: seq<int>)
    ensures ListsValues(segs, k, ValuesFor(segs, k), idx)
  {
    idx := [];
    if segs != [] {
      var init, last := segs[..|segs| - 1], |segs| - 1;
      idx := ValuesInOrder(init, k);
      GrowList(segs, k, ValuesFor(init, k), idx);
      if Cut(segs[last], '=').0 == k {
        idx := idx + [last];
      }
    }
  }

  lemma GrowList(segs: seq<string>, k: string, values: seq<string>, idx: seq<int>)
    requires segs != [] && ListsValues(segs[..|segs| - 1], k, values, idx)
    ensures if Cut(segs[|segs| - 1], '=').0 == k
            then ListsValues(segs, k, values + [Cut(segs[|segs| - 1], '=').1], idx + [|segs| - 1])
            else ListsValues(segs, k, values, idx)
  {
    var init, last := segs[..|segs| - 1], |segs| - 1;
    forall i | 0 <= i < |segs| && Cut(segs[i], '=').0 == k ensures i in idx || i == last {
      assert i < last ==> init[i] == segs[i];
    }
  }

  lemma {:induction false} ValuesInOrderUnique(segs: seq<string>, k: string, values: seq<string>, idx: seq<int>)
    requires ListsValues(segs, k, values, idx)
    ensures values == ValuesFor(segs, k)
  {
    if segs != [] {
      var init, seg, n := segs[..|segs| - 1], segs[|segs| - 1], |idx| - 1;
      assert segs == init + [seg];
      ValuesForSnoc(init, seg, k);
      if Cut(seg, '=').0 == k {
        LastIndex(segs, k, values, idx);
        LastValue(segs, k, values, idx);
        ValuesInOrderUnique(init, k, values[..n], idx[..n]);
        assert values == values[..n] + [values[n]];
      } else {
        SkipLast(segs, k, values, idx);
        ValuesInOrderUnique(init, k, values, idx);
        assert ValuesFor(init, k) + [] == ValuesFor(init, k);
      }
    }
  }

  lemma LastIndex(segs: seq<string>, k: string, values: seq<string>, idx: seq<int>)
    requires ListsValues(segs, k, values, idx) && segs != [] && Cut(segs[|segs| - 1], '=').0 == k
    ensures idx != [] && idx[|idx| - 1] == |segs| - 1 && Cut(segs[|segs| - 1], '=').1 == values[|idx| - 1]
  {
    var last := |segs| - 1;
    assert last in idx;
    var m :| 0 <= m < |idx| && idx[m] == last;
  }

  lemma SkipLast(segs: seq<string>, k: string, values: seq<string>, idx: seq<int>)
    requires ListsValues(segs, k, values, idx) && segs != [] && Cut(segs[|segs| - 1], '=').0 != k
    ensures ListsValues(segs[..|segs| - 1], k, values, idx)
  {
  }

  lemma LastValue(segs: seq<string>, k: string, values: seq<string>, idx: seq<int>)
    requires ListsValues(segs, k, values, idx) && segs != [] && idx != [] && idx[|idx| - 1] == |segs| - 1
    ensures ListsValues(segs[..|segs| - 1], k, values[..|idx| - 1], idx[..|idx| - 1])
  {
    var init, n := segs[..|segs| - 1], |idx| - 1;
    forall i | 0 <= i < |init| && Cut(init[i], '=').0 == k ensures i in idx[..n] {
      var m :| 0 <= m < |idx| && idx[m] == i;
      assert idx[..n][m] == i;
    }
  }

  // The properties a region spells: none without one; else at most 64 keys, those of its
  // segments, each with its values in order, at most 32 and all different.
  ghost predicate Spells(matrix: string, props: Props) {
    if matrix == "" then props == map[]
    else
      var segs := Split(if matrix[0] == ';' then matrix[1..] else matrix, ';');
      && (forall i :: 0 <= i < |segs| ==>
            LegalPair(segs[i], Cut(segs[i], '=').0, Cut(segs[i], '=').1) && Cut(segs[i], '=').0 in props)
      && |props| <= 64
      && (forall k :: k in props ==>
            && 0 < |props[k]| <= 32 && (exists idx :: ListsValues(segs, k, props[k], idx))
            && forall i, j :: 0 <= i < j < |props[k]| ==> props[k][i] != props[k][j])
  }

  lemma SpellsCollects(segs: seq<string>, props: Props)
    requires forall i :: 0 <= i < |segs| ==> Cut(segs[i], '=').0 in props
    requires forall k :: k in props ==> props[k] != [] && exists idx :: ListsValues(segs, k, props[k], idx)
    ensures Collects(props, segs)
  {
    forall k | k in props ensures props[k] == ValuesFor(segs, k) {
      var idx :| ListsValues(segs, k, props[k], idx);
      ValuesInOrderUnique(segs, k, props[k], idx);
    }
  }

  lemma CollectsSpells(segs: seq<string>, props: Props, k: string)
    requires Collects(props, segs) && k in props
    ensures exists idx :: ListsValues(segs, k, props[k], idx)
  {
    var idx := ValuesInOrder(segs, k);
  }

  // Keys and values of a multimap of legal segments are legal.
  lemma CollectedLegal(segs: seq<string>, props: Props, k: string)
    requires Collects(props, segs) && k in props && forall i :: 0 <= i < |segs| ==> ValidSegment(segs[i])
    ensures ValidPropKey(k) && forall n :: 0 <= n < |props[k]| ==> ValidPropValue(props[k][n])
  {
    var idx := ValuesInOrder(segs, k);
    forall n | 0 <= n < |props[k]| ensures ValidPropKey(k) && ValidPropValue(props[k][n]) {
      assert ValidSegment(segs[idx[n]]);
    }
    var first := idx[0];
    assert ValidSegment(segs[first]) && Cut(segs[first], '=').0 == k;
  }

  lemma ParseExactly(matrix: string, props: Props)
    ensures Parses(matrix, Some(props)) <==> Spells(matrix, props)
  {
    if matrix != "" {
      var segs := Split(if matrix[0] == ';' then matrix[1..] else matrix, ';');
      assert RegionSegments(matrix) == segs;
      LegalSegments(segs);
      if Parses(matrix, Some(props)) {
        ParsesSpells(matrix, segs, props);
      }
      if Spells(matrix, props) {
        SpellsParses(matrix, segs, props);
      }
    }
  }

  lemma LegalSegments(segs: seq<string>)
    ensures (forall seg :: seg in segs ==> ValidSegment(seg)) <==>
            forall i :: 0 <= i < |segs| ==> LegalPair(segs[i], Cut(segs[i], '=').0, Cut(segs[i], '=').1)
  {
    forall i | 0 <= i < |segs|
      ensures ValidSegment(segs[i]) <==> LegalPair(segs[i], Cut(segs[i], '=').0, Cut(segs[i], '=').1)
    {
      SegmentExactly(segs[i], Cut(segs[i], '=').0, Cut(segs[i], '=').1);
    }
    forall i | 0 <= i < |segs| ensures segs[i] in segs {
    }
  }

  lemma ParsesSpells(matrix: string, segs: seq<string>, props: Props)
    requires matrix != "" && segs == RegionSegments(matrix) && Parses(matrix, Some(props))
    requires segs == Split(if matrix[0] == ';' then matrix[1..] else matrix, ';')
    ensures Spells(matrix, props)
  {
    LegalSegments(segs);
    forall k | k in props ensures exists idx :: ListsValues(segs, k, props[k], idx) {
      CollectsSpells(segs, props, k);
    }
  }

  lemma SpellsParses(matrix: string, segs: seq<string>, props: Props)
    requires matrix != "" && segs == RegionSegments(matrix) && Spells(matrix, props)
    requires segs == Split(if matrix[0] == ';' then matrix[1..] else matrix, ';')
    ensures Parses(matrix, Some(props))
  {
    LegalSegments(segs);
    SpellsCollects(segs, props);
    forall k | k in props ensures ValidPropKey(k) && forall n :: 0 <= n < |props[k]| ==> ValidPropValue(props[k][n]) {
      CollectedLegal(segs, props, k);
    }
    assert ValidPropSet(props);
  }

  /** A request path resolves to a key, a path and properties exactly when it decodes to
      that key and path, both legal, followed by what is peeled of it, and that spells the
      properties. */
  lemma ResolvesExactly(raw: string, key: string, rel: string, props: Props)
    ensures Resolves(raw, Some(Resolved(key, rel, props))) <==>
            exists clean, matrix :: PathUnescape(raw) == Some(clean + matrix) && Peels(clean, matrix) &&
                                    Addresses(clean, key, rel) && Spells(matrix, props)
  {
    if PathUnescape(raw).Some? {
      var decoded := PathUnescape(raw).value;
      ResolvesDecoded(raw, decoded, key, rel, props);
      DecodedExactly(decoded, key, rel, props);
    }
  }

  lemma DecodedExactly(decoded: string, key: string, rel: string, props: Props)
    ensures SplitRepoPath(SplitMatrixParams(decoded).0) == Some((key, rel)) &&
            Parses(SplitMatrixParams(decoded).1, Some(props)) <==>
            exists clean, matrix :: decoded == clean + matrix && Peels(clean, matrix) &&
                                    Addresses(clean, key, rel) && Spells(matrix, props)
  {
    var split := SplitMatrixParams(decoded);
    PeelExactly(decoded, split.0, split.1);
    AddressExactly(split.0, key, rel);
    ParseExactly(split.1, props);
    forall c, m | decoded == c + m && Peels(c, m) ensures (c, m) == split {
      PeelExactly(decoded, c, m);
    }
  }
}
