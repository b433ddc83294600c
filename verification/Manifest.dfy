/** Release-bundle manifests: validation and the digest of the identity set
    (internal/bundle/model.go). */
module Manifest {
  import opened Text
  import opened Ordering
  import Permissions

  const MAX_NAME_LENGTH := 255
  const MAX_VERSION_LENGTH := 255
  const MAX_MANIFEST_ITEMS := 10000

  datatype ManifestItem = Null | Item(repo: string, path: string, sha256: string)

  // ---- validation ----------------------------------------------------------------------

  predicate HasControl(s: string) {
    exists i :: 0 <= i < |s| && IsControl(s[i])
  }

  predicate ValidName(name: string) {
    && 0 < |name| <= MAX_NAME_LENGTH
    && forall i :: 0 <= i < |name| ==>
         IsAlnum(name[i]) || (i > 0 && name[i] in {'-', '_', ':'})
  }

  // The length in bytes of the UTF-8 form.
  function ByteLength(s: string): nat {
    if s == "" then 0
    else
      var c := s[0] as int;
      (if c < 0x80 then 1 else if c < 0x800 then 2 else if c < 0x1_0000 then 3 else 4) + ByteLength(s[1..])
  }

  predicate ValidVersion(version: string) {
    version != "" && ByteLength(version) <= MAX_VERSION_LENGTH && '/' !in version && !HasControl(version)
  }

  predicate ValidRow(repo: string, path: string) {
    && repo != "" && !HasControl(repo) && '/' !in repo && !Permissions.IsWildcardBucket(repo)
    && path != "" && !HasControl(path) && !HasPrefix(path, "/")
    && var segs := Split(path, '/');
       forall i :: 0 <= i < |segs| ==> segs[i] != "" && segs[i] != "." && segs[i] != ".."
  }

  function Identity(repo: string, path: string): string {
    repo + ['/'] + path
  }

  function IdOf(it: ManifestItem): string {
    if it.Null? then "" else Identity(it.repo, it.path)
  }

  predicate ValidItem(it: ManifestItem) {
    it.Item? && ValidRow(it.repo, it.path) && !HasControl(it.sha256)
  }

  predicate ValidManifest(items: seq<ManifestItem>) {
    && 0 < |items| <= MAX_MANIFEST_ITEMS
    && (forall i :: 0 <= i < |items| ==> ValidItem(items[i]))
    && (forall i, j :: 0 <= i < j < |items| ==> IdOf(items[i]) != IdOf(items[j]))
  }

  // The row loop of Create, with its table of identities seen.
  method CheckManifest(items: seq<ManifestItem>) returns (ok: bool)
    ensures ok <==> ValidManifest(items)
  {
    if |items| == 0 || |items| > MAX_MANIFEST_ITEMS {
      return false;
    }
    var seen: set<string> := {};
    for k := 0 to |items|
      invariant forall i :: 0 <= i < k ==> ValidItem(items[i])
      invariant seen == set i | 0 <= i < k :: IdOf(items[i])
      invariant forall i, j :: 0 <= i < j < k ==> IdOf(items[i]) != IdOf(items[j])
    {
      var it := items[k];
      if !ValidItem(it) {
        return false;
      }
      var id := IdOf(it);
      if id in seen {
        return false;
      }
      seen := seen + {id};
    }
    return true;
  }

  // ---- identities and the digest ------------------------------------------------------------

  datatype Pair = Pair(repo: string, path: string)

  function Identities(pairs: seq<Pair>): seq<string> {
    seq(|pairs|, i requires 0 <= i < |pairs| => Identity(pairs[i].repo, pairs[i].path))
  }

  function PairsOf(items: seq<ManifestItem>): seq<Pair>
    requires forall i :: 0 <= i < |items| ==> items[i].Item?
  {
    seq(|items|, i requires 0 <= i < |items| => Pair(items[i].repo, items[i].path))
  }

  function DigestInput(pairs: seq<Pair>): string {
    Join(Sort(Identities(pairs), Less), '\n')
  }

  function Digest(hash: string -> string, pairs: seq<Pair>): string {
    "sha256:" + hash(DigestInput(pairs))
  }

  method ManifestDigest(hash: string -> string, pairs: seq<Pair>) returns (digest: string)
    ensures digest == Digest(hash, pairs)
  {
    var ids: seq<string> := [];
    for i := 0 to |pairs|
      invariant ids == Identities(pairs)[..i]
    {
      ids := ids + [pairs[i].repo + "/" + pairs[i].path];
    }
    assert ids == Identities(pairs);
    ids := Sort(ids, Less);
    digest := "sha256:" + hash(Join(ids, '\n'));
  }

  // Rows a manifest may hold: validated, no identity twice, at least one.
  ghost predicate Listing(pairs: seq<Pair>) {
    && pairs != []
    && (forall i :: 0 <= i < |pairs| ==> ValidRow(pairs[i].repo, pairs[i].path))
    && Distinct(pairs)
  }

  // A repository key holds no slash, so an identity names one repository and path.
  lemma IdentityInjective(a: Pair, b: Pair)
    requires '/' !in a.repo && '/' !in b.repo
    requires Identity(a.repo, a.path) == Identity(b.repo, b.path)
    ensures a == b
  {
    CutUnique(Identity(a.repo, a.path), '/', (a.repo, a.path, true));
    CutUnique(Identity(a.repo, a.path), '/', (b.repo, b.path, true));
  }

  lemma ValidManifestLists(items: seq<ManifestItem>)
    requires ValidManifest(items)
    ensures Listing(PairsOf(items))
  {
    var pairs := PairsOf(items);
    forall i, j | 0 <= i < j < |pairs| ensures pairs[i] != pairs[j] {
      assert IdOf(items[i]) != IdOf(items[j]);
    }
  }

  lemma IdentityLine(repo: string, path: string)
    requires ValidRow(repo, path)
    ensures '\n' !in Identity(repo, path)
  {
    assert IsControl('\n');
    if '\n' in repo {
      assert HasControl(repo);
    }
    if '\n' in path {
      assert HasControl(path);
    }
  }

  lemma LessStrict()
    ensures Strict<string>(Less)
  {
    forall x: string, y: string | Less(x, y) ensures !Less(y, x) {
      LessAsymmetric(x, y);
    }
    forall x: string, y: string, z: string | Less(x, y) && Less(y, z) ensures Less(x, z) {
      LessTransitive(x, y, z);
    }
  }

  // Sorting forgets exactly the order.
  lemma SortedAgree(a: seq<string>, b: seq<string>)
    ensures Sort(a, Less) == Sort(b, Less) <==> multiset(a) == multiset(b)
  {
    SortKeeps(a, Less);
    SortKeeps(b, Less);
    if multiset(a) == multiset(b) {
      LessStrict();
      forall x: string, y: string | x != y ensures Less(x, y) || Less(y, x) {
        LessTotal(x, y);
      }
      SortOrders(a, Less);
      SortOrders(b, Less);
      OrderedUnique(Sort(a, Less), Sort(b, Less), Less);
    }
  }

  // Joining lines with newlines loses nothing when no line holds one.
  lemma LinesAgree(a: seq<string>, b: seq<string>)
    requires a != [] && b != []
    requires forall i :: 0 <= i < |a| ==> '\n' !in a[i]
    requires forall i :: 0 <= i < |b| ==> '\n' !in b[i]
    ensures Join(a, '\n') == Join(b, '\n') <==> a == b
  {
    SplitOfJoin(a, '\n');
    SplitOfJoin(b, '\n');
  }

  lemma SortedLines(pairs: seq<Pair>)
    requires Listing(pairs)
    ensures var lines := Sort(Identities(pairs), Less);
            lines != [] && forall i :: 0 <= i < |lines| ==> '\n' !in lines[i]
  {
    var ids := Identities(pairs);
    var lines := Sort(ids, Less);
    SortKeeps(ids, Less);
    forall i | 0 <= i < |lines| ensures '\n' !in lines[i] {
      assert lines[i] in ids;
      var k :| 0 <= k < |ids| && ids[k] == lines[i];
      IdentityLine(pairs[k].repo, pairs[k].path);
    }
  }

  lemma InputsAgree(a: seq<Pair>, b: seq<Pair>)
    requires Listing(a) && Listing(b)
    ensures DigestInput(a) == DigestInput(b) <==> multiset(Identities(a)) == multiset(Identities(b))
  {
    SortedLines(a);
    SortedLines(b);
    LinesAgree(Sort(Identities(a), Less), Sort(Identities(b), Less));
    SortedAgree(Identities(a), Identities(b));
  }

  // ---- from identities back to pairs ---------------------------------------------------------

  lemma IdentityOf(pairs: seq<Pair>, p: Pair)
    requires (forall i :: 0 <= i < |pairs| ==> '/' !in pairs[i].repo) && '/' !in p.repo
    ensures p in pairs <==> Identity(p.repo, p.path) in Identities(pairs)
  {
    var ids := Identities(pairs);
    if p in pairs {
      var i :| 0 <= i < |pairs| && pairs[i] == p;
      assert ids[i] == Identity(p.repo, p.path);
    } else if Identity(p.repo, p.path) in ids {
      var i :| 0 <= i < |ids| && ids[i] == Identity(p.repo, p.path);
      IdentityInjective(pairs[i], p);
    }
  }

  lemma IdentitiesDistinct(pairs: seq<Pair>)
    requires Listing(pairs)
    ensures Distinct(Identities(pairs))
  {
    forall i, j | 0 <= i < j < |pairs| ensures Identities(pairs)[i] != Identities(pairs)[j] {
      if Identities(pairs)[i] == Identities(pairs)[j] {
        IdentityInjective(pairs[i], pairs[j]);
      }
    }
  }

  lemma SameSetSameIdentities(a: seq<Pair>, b: seq<Pair>)
    requires Listing(a) && Listing(b)
    requires forall p :: p in a <==> p in b
    ensures multiset(Identities(a)) == multiset(Identities(b))
  {
    IdentitiesDistinct(a);
    IdentitiesDistinct(b);
    forall x ensures multiset(Identities(a))[x] == multiset(Identities(b))[x] {
      DistinctCounts(Identities(a), x);
      DistinctCounts(Identities(b), x);
      IdentitiesFollow(a, b, x);
      IdentitiesFollow(b, a, x);
    }
  }

  lemma IdentitiesFollow(a: seq<Pair>, b: seq<Pair>, x: string)
    requires forall p :: p in a ==> p in b
    ensures x in Identities(a) ==> x in Identities(b)
  {
    if x in Identities(a) {
      var i :| 0 <= i < |a| && Identities(a)[i] == x;
      assert a[i] in b;
      var j :| 0 <= j < |b| && b[j] == a[i];
      assert Identities(b)[j] == x;
    }
  }

  lemma SameIdentitiesSameSet(a: seq<Pair>, b: seq<Pair>, p: Pair)
    requires Listing(a) && Listing(b)
    requires multiset(Identities(a)) == multiset(Identities(b))
    ensures p in a ==> p in b
  {
    SameMembers(Identities(a), Identities(b));
    if p in a {
      IdentityOf(a, p);
      IdentityOf(b, p);
    }
  }

  /** Two validated manifests give the same digest input exactly when they list the same
      set of (repository, path) pairs, whatever their order. */
  lemma DigestInputUnambiguous(a: seq<ManifestItem>, b: seq<ManifestItem>)
    requires ValidManifest(a) && ValidManifest(b)
    ensures DigestInput(PairsOf(a)) == DigestInput(PairsOf(b)) <==>
            (forall p :: p in PairsOf(a) <==> p in PairsOf(b))
  {
    ValidManifestLists(a);
    ValidManifestLists(b);
    ListingInputs(PairsOf(a), PairsOf(b));
  }

  lemma ListingInputs(a: seq<Pair>, b: seq<Pair>)
    requires Listing(a) && Listing(b)
    ensures DigestInput(a) == DigestInput(b) <==> (forall p :: p in a <==> p in b)
  {
    InputsAgree(a, b);
    if multiset(Identities(a)) == multiset(Identities(b)) {
      forall p ensures p in a <==> p in b {
        SameIdentitiesSameSet(a, b, p);
        SameIdentitiesSameSet(b, a, p);
      }
    } else if forall p :: p in a <==> p in b {
      SameSetSameIdentities(a, b);
    }
  }

  // With an injective hash, the signature itself names the identity set.
  lemma DigestNamesIdentities(hash: string -> string, a: seq<Pair>, b: seq<Pair>)
    requires Listing(a) && Listing(b)
    ensures (forall p :: p in a <==> p in b) ==> Digest(hash, a) == Digest(hash, b)
    ensures Injective(hash) && Digest(hash, a) == Digest(hash, b) ==> (forall p :: p in a <==> p in b)
  {
    ListingInputs(a, b);
    if Digest(hash, a) == Digest(hash, b) {
      SamePrefix("sha256:", hash(DigestInput(a)), hash(DigestInput(b)));
    }
  }

  lemma SamePrefix(p: string, x: string, y: string)
    requires p + x == p + y
    ensures x == y
  {
    assert x == (p + x)[|p|..] && y == (p + y)[|p|..];
  }

  // ---- the rules, field by field ------------------------------------------------------------

  predicate NoControls(s: string) {
    forall i :: 0 <= i < |s| ==> s[i] as int >= 0x20 && s[i] as int != 0x7F
  }

  lemma ControlExactly(s: string)
    ensures HasControl(s) <==> !NoControls(s)
  {
  }

  // A bundle name: 1 to 255 letters and digits, and after the first also '-', '_' and ':'.
  ghost predicate LegalName(name: string) {
    && 0 < |name| <= 255
    && forall i :: 0 <= i < |name| ==>
         'a' <= name[i] <= 'z' || 'A' <= name[i] <= 'Z' || '0' <= name[i] <= '9' ||
         (i > 0 && name[i] in {'-', '_', ':'})
  }

  // The byte length adds up over characters; one of ASCII takes one byte.
  lemma {:induction false} ByteLengthAdds(a: string, b: string)
    ensures ByteLength(a + b) == ByteLength(a) + ByteLength(b)
    ensures (forall i :: 0 <= i < |a| ==> a[i] as int < 0x80) ==> ByteLength(a) == |a|
  {
    if a == "" {
      assert a + b == b;
    } else {
      ByteLengthAdds(a[1..], b);
      assert (a + b)[1..] == a[1..] + b;
    }
  }

  // A version: at most 255 bytes, no slash, no control.
  ghost predicate LegalVersion(version: string) {
    version != "" && ByteLength(version) <= 255 && '/' !in version && NoControls(version)
  }

  // A manifest row: a repository key that is no bucket, and a relative path without an
  // empty, "." or ".." segment.
  ghost predicate LegalRow(repo: string, path: string) {
    && repo != "" && NoControls(repo) && '/' !in repo && repo !in {"ANY LOCAL", "ANY REMOTE", "ANY DISTRIBUTION"}
    && path != "" && NoControls(path)
    && forall i, j :: SegmentAt(path, '/', i, j) ==> path[i..j] !in {"", ".", ".."}
  }

  lemma RowExactly(repo: string, path: string)
    ensures ValidRow(repo, path) <==> LegalRow(repo, path)
  {
    ControlExactly(repo);
    ControlExactly(path);
    var segs := Split(path, '/');
    forall i, j | SegmentAt(path, '/', i, j) ensures path[i..j] in segs {
      SegmentIsPart(path, '/', i, j);
    }
    if p :| 0 <= p < |segs| && !(segs[p] != "" && segs[p] != "." && segs[p] != "..") {
      var i, j := PartIsSegment(path, '/', p);
    }
    if HasPrefix(path, "/") {
      assert path[0] == '/' && path[0..0] == "";
      assert SegmentAt(path, '/', 0, 0);
    }
  }

  /** A manifest is accepted exactly when it has 1 to 10000 rows, none of them null, each a
      legal row with a pin free of controls, and no pair of repository and path twice. */
  lemma ManifestExactly(items: seq<ManifestItem>)
    ensures ValidManifest(items) <==>
            && 0 < |items| <= 10000
            && (forall i :: 0 <= i < |items| ==>
                  items[i].Item? && LegalRow(items[i].repo, items[i].path) && NoControls(items[i].sha256))
            && (forall i, j :: 0 <= i < j < |items| ==>
                  (items[i].Item? && items[j].Item? ==>
                     items[i].repo != items[j].repo || items[i].path != items[j].path))
  {
    forall i | 0 <= i < |items| && items[i].Item?
      ensures ValidItem(items[i]) <==> LegalRow(items[i].repo, items[i].path) && NoControls(items[i].sha256)
    {
      RowExactly(items[i].repo, items[i].path);
      ControlExactly(items[i].sha256);
    }
    forall i, j | 0 <= i < j < |items| && ValidItem(items[i]) && ValidItem(items[j])
      ensures IdOf(items[i]) == IdOf(items[j]) <==> items[i].repo == items[j].repo && items[i].path == items[j].path
    {
      SamePair(items[i], items[j]);
    }
  }

  lemma SamePair(a: ManifestItem, b: ManifestItem)
    requires ValidItem(a) && ValidItem(b)
    ensures IdOf(a) == IdOf(b) <==> a.repo == b.repo && a.path == b.path
  {
    if IdOf(a) == IdOf(b) {
      IdentityInjective(Pair(a.repo, a.path), Pair(b.repo, b.path));
    }
  }
}
