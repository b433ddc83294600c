/** Mirroring a provider's group claims into the local membership table
    (internal/auth/idp_sync.go). */
module GroupSync {
  import opened Text
  import opened Ordering

  function ToSet(s: seq<string>): set<string> {
    set x | x in s
  }

  // ---- the comparison ---------------------------------------------------------------------

  // What sameNameSet answers: equal lengths, and nothing in b that a lacks.
  predicate LooksSame(a: seq<string>, b: seq<string>) {
    |a| == |b| && ToSet(b) <= ToSet(a)
  }

  method SameNameSet(a: seq<string>, b: seq<string>) returns (same: bool)
    ensures same <==> LooksSame(a, b)
  {
    if |a| != |b| {
      return false;
    }
    var seen: set<string> := {};
    for i := 0 to |a|
      invariant forall x :: x in seen <==> x in a[..i]
    {
      seen := seen + {a[i]};
    }
    assert a[..|a|] == a;
    for i := 0 to |b|
      invariant forall j :: 0 <= j < i ==> b[j] in a
    {
      if b[i] !in seen {
        assert b[i] in ToSet(b);
        return false;
      }
    }
    return true;
  }

  lemma {:induction false} SetSize(s: seq<string>)
    ensures |ToSet(s)| <= |s|
    ensures |ToSet(s)| == |s| <==> Distinct(s)
  {
    if s != [] {
      var init, last := s[..|s| - 1], s[|s| - 1];
      SetSize(init);
      assert s == init + [last];
      assert ToSet(s) == ToSet(init) + {last};
      if last in init {
        var i :| 0 <= i < |init| && init[i] == last;
        assert s[i] == s[|s| - 1];
        assert ToSet(s) == ToSet(init);
      } else {
        assert Distinct(init) ==> Distinct(s) by {
          forall i, j | Distinct(init) && 0 <= i < j < |s| ensures s[i] != s[j] {
            assert s[i] == init[i];
          }
        }
      }
    }
  }

  lemma SubsetSameSize(a: set<string>, b: set<string>)
    requires b <= a && |a| == |b|
    ensures a == b
  {
    assert |a - b| == |a| - |b|;
    assert a == b + (a - b);
  }

  /** Against a list without repeats, the comparison is set equality together with "the
      other list has no repeats either"; it also passes a shorter set padded with repeats. */
  lemma LooksSameExactly(a: seq<string>, b: seq<string>)
    requires Distinct(a)
    ensures LooksSame(a, b) && Distinct(b) <==> ToSet(a) == ToSet(b) && |a| == |b|
    ensures Distinct(b) ==> (LooksSame(a, b) <==> ToSet(a) == ToSet(b))
  {
    SetSize(a);
    SetSize(b);
    if LooksSame(a, b) && Distinct(b) {
      SubsetSameSize(ToSet(a), ToSet(b));
    }
  }

  // ---- the local part of the claims ------------------------------------------------------------

  method MaterializedNames(claimed: seq<string>, local: seq<string>) returns (synced: seq<string>, skipped: seq<string>)
    ensures Distinct(synced) && Distinct(skipped)
    ensures forall n :: n in synced <==> n in claimed && n != "" && n in local
    ensures forall n :: n in skipped <==> n in claimed && n != "" && n !in local
  {
    var seen: set<string> := {};
    synced, skipped := [], [];
    for i := 0 to |claimed|
      invariant forall n :: n in seen <==> n in claimed[..i] && n != ""
      invariant Distinct(synced) && Distinct(skipped)
      invariant forall n :: n in synced <==> n in seen && n in local
      invariant forall n :: n in skipped <==> n in seen && n !in local
    {
      var n := claimed[i];
      if n == "" || n in seen {
        continue;
      }
      seen := seen + {n};
      if n in local {
        synced := synced + [n];
      } else {
        skipped := skipped + [n];
      }
    }
    assert claimed[..|claimed|] == claimed;
  }

  // ---- the sync -----------------------------------------------------------------------------------

  // The claimed groups that exist locally.
  function Mirrored(claimed: seq<string>, local: seq<string>): set<string> {
    set n | n in claimed && n != "" && n in local
  }

  datatype Faults = Faults(read: bool, list: bool, write: bool)

  class GroupTable {
    var members: map<string, seq<string>>
    var local: seq<string>

    // A membership names existing groups, each once.
    ghost predicate Valid()
      reads this
    {
      && "" !in local
      && forall u :: u in members ==> Distinct(members[u]) && ToSet(members[u]) <= ToSet(local)
    }

    function GroupsOf(user: string): seq<string>
      reads this
    {
      if user in members then members[user] else []
    }

    // claimed is None when the provider says nothing about groups.
    method SyncProviderGroups(user: string, claimed: Option<seq<string>>, f: Faults)
      requires Valid()
      modifies this`members
      ensures Valid()
      ensures forall u :: u != user ==> GroupsOf(u) == old(GroupsOf(u))
      ensures claimed.None? || f.read || f.write ==> members == old(members)
      ensures f.list ==> members == old(members)
      ensures claimed.Some? && f == Faults(false, false, false) ==>
                ToSet(GroupsOf(user)) == AfterSync(old(GroupsOf(user)), claimed.value, local)
    {
      if claimed.None? || f.read {
        return;
      }
      var current := GroupsOf(user);
      var same := SameNameSet(current, claimed.value);
      SyncVerdict(current, claimed.value, local);
      if same {
        return;
      }
      if f.list {
        return;
      }
      var synced, skipped := MaterializedNames(claimed.value, local);
      assert ToSet(synced) == Mirrored(claimed.value, local);
      same := SameNameSet(current, synced);
      LooksSameExactly(current, synced);
      if same {
        return;
      }
      if f.write {
        return;
      }
      members := members[user := synced];
    }
  }

  // The comparison takes a claim with repeats for the membership it is a strict part of.
  predicate Misread(current: seq<string>, claimed: seq<string>) {
    |claimed| == |current| && ToSet(claimed) <= ToSet(current) && !Distinct(claimed)
  }

  // The membership a faultless sync ends with.
  function AfterSync(current: seq<string>, claimed: seq<string>, local: seq<string>): set<string> {
    if Misread(current, claimed) then ToSet(current) else Mirrored(claimed, local)
  }

  lemma SyncVerdict(current: seq<string>, claimed: seq<string>, local: seq<string>)
    requires Distinct(current) && ToSet(current) <= ToSet(local) && "" !in local
    ensures LooksSame(current, claimed) ==> AfterSync(current, claimed, local) == ToSet(current)
    ensures !LooksSame(current, claimed) ==> AfterSync(current, claimed, local) == Mirrored(claimed, local)
  {
    if LooksSame(current, claimed) && Distinct(claimed) {
      LooksSameExactly(current, claimed);
      forall n ensures n in Mirrored(claimed, local) <==> n in ToSet(current) {
        assert n in claimed <==> n in ToSet(claimed);
        assert n in local <==> n in ToSet(local);
      }
    }
  }

  /** The membership ends as the claimed groups that exist locally exactly when the claim
      is not a repeat-padded list, as long as the membership, of some of its groups. */
  lemma SyncMirrorsExactly(current: seq<string>, claimed: seq<string>, local: seq<string>)
    requires Distinct(current) && ToSet(current) <= ToSet(local) && "" !in local
    ensures AfterSync(current, claimed, local) == Mirrored(claimed, local) <==> !Misread(current, claimed)
  {
    if Misread(current, claimed) {
      SetSize(current);
      SetSize(claimed);
      assert ToSet(current) != ToSet(claimed);
      var n :| n in ToSet(current) && n !in ToSet(claimed);
      assert n !in Mirrored(claimed, local);
    }
  }

  // A revoked group survives the sync: claimed twice over, the other stands in for it.
  lemma RevokedGroupSurvives(a: string, b: string)
    requires a != b && a != "" && b != ""
    ensures AfterSync([a, b], [a, a], [a, b]) == {a, b}
    ensures Mirrored([a, a], [a, b]) == {a}
  {
    var claimed := [a, a];
    assert claimed[0] == claimed[1];
    assert a in [a, b];
  }
}
