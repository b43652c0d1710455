/** The year overview (ui_year.py): per month a grid with a group row per
    role followed by that role's resources, the text and colour of each
    resource cell, its tooltip, and the day range a selection stands for. */
module YearView {
  import opened Wrappers
  import opened Strs
  import opened Calendar
  import opened Models
  import opened Logic

  // ---------------------------------------------------------------------
  // Sorting by a key, as `sorted(xs, key=...)` does

  /** Python's tuple order on a pair of strings. */
  predicate KeyLess(a: (string, string), b: (string, string)) {
    StrLess(a.0, b.0) || (a.0 == b.0 && StrLess(a.1, b.1))
  }

  lemma KeyLessIrreflexive(a: (string, string))
    ensures !KeyLess(a, a)
  {
    StrLessIrreflexive(a.0);
    StrLessIrreflexive(a.1);
  }

  lemma KeyLessTransitive(a: (string, string), b: (string, string), c: (string, string))
    ensures KeyLess(a, b) && KeyLess(b, c) ==> KeyLess(a, c)
  {
    if StrLess(a.0, b.0) && StrLess(b.0, c.0) {
      StrLessTransitive(a.0, b.0, c.0);
    }
    if a.0 == b.0 && b.0 == c.0 && StrLess(a.1, b.1) && StrLess(b.1, c.1) {
      StrLessTransitive(a.1, b.1, c.1);
    }
  }

  /** No element has a key below that of an element before it. */
  predicate SortedBy<T>(xs: seq<T>, key: T -> (string, string)) {
    forall i, j :: 0 <= i < j < |xs| ==> !KeyLess(key(xs[j]), key(xs[i]))
  }

  /** Inserts `x` after every element whose key is not above its own. */
  function InsertBy<T>(x: T, ys: seq<T>, key: T -> (string, string)): seq<T> {
    if ys == [] then [x]
    else if KeyLess(key(x), key(ys[0])) then [x] + ys
    else [ys[0]] + InsertBy(x, ys[1..], key)
  }

  /** `sorted(xs, key=key)`: an insertion sort that keeps elements with
      equal keys in their original order. */
  function SortBy<T>(xs: seq<T>, key: T -> (string, string)): seq<T> {
    if xs == [] then [] else InsertBy(xs[|xs| - 1], SortBy(xs[..|xs| - 1], key), key)
  }

  /** Inserting adds exactly `x`. */
  lemma {:induction false} InsertByPerm<T>(x: T, ys: seq<T>, key: T -> (string, string))
    ensures multiset(InsertBy(x, ys, key)) == multiset(ys) + multiset{x}
  {
    if ys != [] {
      assert ys == [ys[0]] + ys[1..];
      if !KeyLess(key(x), key(ys[0])) {
        InsertByPerm(x, ys[1..], key);
      }
    }
  }

  /** A sorted sequence stays sorted under a new first element that is
      not above any of its elements. */
  lemma SortedCons<T>(h: T, xs: seq<T>, key: T -> (string, string))
    requires SortedBy(xs, key)
    requires forall y :: y in xs ==> !KeyLess(key(y), key(h))
    ensures SortedBy([h] + xs, key)
  {
    var r := [h] + xs;
    forall i, j | 0 <= i < j < |r|
      ensures !KeyLess(key(r[j]), key(r[i]))
    {
      if i == 0 {
        assert r[j] in xs;
      } else {
        assert r[i] == xs[i - 1] && r[j] == xs[j - 1];
      }
    }
  }

  /** Inserting into a sorted sequence keeps it sorted. */
  lemma {:induction false} InsertBySorted<T>(x: T, ys: seq<T>, key: T -> (string, string))
    requires SortedBy(ys, key)
    ensures SortedBy(InsertBy(x, ys, key), key)
  {
    if ys == [] {
    } else if KeyLess(key(x), key(ys[0])) {
      forall y | y in ys
        ensures !KeyLess(key(y), key(x))
      {
        var m :| 0 <= m < |ys| && ys[m] == y;
        if m == 0 {
          KeyLessIrreflexive(key(ys[0]));
        }
        KeyLessTransitive(key(y), key(x), key(ys[0]));
      }
      SortedCons(x, ys, key);
    } else {
      var rest := InsertBy(x, ys[1..], key);
      assert SortedBy(ys[1..], key);
      InsertBySorted(x, ys[1..], key);
      InsertByPerm(x, ys[1..], key);
      forall y | y in rest
        ensures !KeyLess(key(y), key(ys[0]))
      {
        assert y in multiset(rest);
        if y != x {
          var m :| 0 <= m < |ys[1..]| && ys[1..][m] == y;
          assert ys[m + 1] == y;
        }
      }
      SortedCons(ys[0], rest, key);
    }
  }

  /** The sorted sequence is in key order and has the same elements. */
  lemma {:induction false} SortByIs<T>(xs: seq<T>, key: T -> (string, string))
    ensures SortedBy(SortBy(xs, key), key)
    ensures multiset(SortBy(xs, key)) == multiset(xs)
  {
    if xs != [] {
      var front := xs[..|xs| - 1];
      SortByIs(front, key);
      InsertBySorted(xs[|xs| - 1], SortBy(front, key), key);
      InsertByPerm(xs[|xs| - 1], SortBy(front, key), key);
      MultisetSnoc(xs);
    }
  }

  /** Sorting keeps exactly the elements it was given. */
  lemma SortByKeeps<T>(xs: seq<T>, key: T -> (string, string), y: T)
    ensures y in SortBy(xs, key) <==> y in xs
  {
    SortByIs(xs, key);
    assert y in SortBy(xs, key) <==> y in multiset(SortBy(xs, key));
  }

  // ---------------------------------------------------------------------
  // Grouping resources by role

  /** The `by_role` key of a resource: its role id when truthy, else -1. */
  function GroupOf(r: Resource): int {
    if r.roleId != 0 then r.roleId else -1
  }

  /** The keys of `by_role` in the order they were first met. */
  function GroupKeys(rs: seq<Resource>): seq<int> {
    if rs == [] then []
    else
      var keys := GroupKeys(rs[..|rs| - 1]);
      if GroupOf(rs[|rs| - 1]) in keys then keys else keys + [GroupOf(rs[|rs| - 1])]
  }

  /** `by_role[k]`: the resources of group `k` in their original order. */
  function Members(rs: seq<Resource>, k: int): seq<Resource> {
    if rs == [] then []
    else Members(rs[..|rs| - 1], k) + (if GroupOf(rs[|rs| - 1]) == k then [rs[|rs| - 1]] else [])
  }

  predicate Distinct(ks: seq<int>) {
    forall i, j :: 0 <= i < j < |ks| ==> ks[i] != ks[j]
  }

  /** Each key is listed once. */
  lemma {:induction false} GroupKeysDistinct(rs: seq<Resource>)
    ensures Distinct(GroupKeys(rs))
  {
    if rs != [] {
      GroupKeysDistinct(rs[..|rs| - 1]);
    }
  }

  /** A key is listed exactly when its group has members. */
  lemma {:induction false} GroupKeysListed(rs: seq<Resource>, k: int)
    ensures k in GroupKeys(rs) <==> Members(rs, k) != []
  {
    if rs != [] {
      GroupKeysListed(rs[..|rs| - 1], k);
    }
  }

  /** A group's members are resources with that key. */
  lemma {:induction false} MembersBelong(rs: seq<Resource>, k: int, x: Resource)
    requires x in Members(rs, k)
    ensures GroupOf(x) == k && x in rs
  {
    var front := rs[..|rs| - 1];
    assert rs == front + [rs[|rs| - 1]];
    if x in Members(front, k) {
      MembersBelong(front, k, x);
    }
  }

  /** The resources of the groups `ks`, counted with multiplicity. */
  function Bag(rs: seq<Resource>, ks: seq<int>): multiset<Resource> {
    if ks == [] then multiset{} else Bag(rs, ks[..|ks| - 1]) + multiset(Members(rs, ks[|ks| - 1]))
  }

  lemma {:induction false} BagAppend(rs: seq<Resource>, a: seq<int>, b: seq<int>)
    ensures Bag(rs, a + b) == Bag(rs, a) + Bag(rs, b)
    decreases |b|
  {
    if b != [] {
      assert (a + b)[..|a + b| - 1] == a + b[..|b| - 1];
      BagAppend(rs, a, b[..|b| - 1]);
    } else {
      assert a + b == a;
    }
  }

  /** Adding one resource adds it to the bag of its own group. */
  lemma {:induction false} BagSnoc(rs: seq<Resource>, ks: seq<int>)
    requires rs != [] && Distinct(ks)
    ensures Bag(rs, ks) == Bag(rs[..|rs| - 1], ks)
                           + (if GroupOf(rs[|rs| - 1]) in ks then multiset{rs[|rs| - 1]} else multiset{})
  {
    if ks != [] {
      var front, k := ks[..|ks| - 1], ks[|ks| - 1];
      var x := rs[|rs| - 1];
      assert k !in front by {
        assert forall i :: 0 <= i < |front| ==> front[i] == ks[i];
      }
      assert Distinct(front);
      BagSnoc(rs, front);
      MembersSnoc(rs, k);
      InSnoc(ks, GroupOf(x));
      AddOnce(Bag(rs[..|rs| - 1], front), multiset(Members(rs[..|rs| - 1], k)), x,
              GroupOf(x) in front, GroupOf(x) == k);
    }
  }

  /** The multiset step of `BagSnoc`: one extra copy, met in at most one of
      two parts. */
  lemma AddOnce(before: multiset<Resource>, mine: multiset<Resource>, x: Resource, inBefore: bool, inMine: bool)
    requires !(inBefore && inMine)
    ensures (before + (if inBefore then multiset{x} else multiset{}))
            + (mine + (if inMine then multiset{x} else multiset{}))
            == before + mine + (if inBefore || inMine then multiset{x} else multiset{})
  {
  }

  lemma MembersSnoc(rs: seq<Resource>, k: int)
    requires rs != []
    ensures multiset(Members(rs, k)) == multiset(Members(rs[..|rs| - 1], k))
                                       + (if GroupOf(rs[|rs| - 1]) == k then multiset{rs[|rs| - 1]} else multiset{})
  {
  }

  /** The groups together hold every resource exactly once. */
  lemma {:induction false} BagOfGroups(rs: seq<Resource>)
    ensures Bag(rs, GroupKeys(rs)) == multiset(rs)
  {
    if rs != [] {
      var front, x := rs[..|rs| - 1], rs[|rs| - 1];
      BagOfGroups(front);
      GroupKeysDistinct(front);
      if GroupOf(x) in GroupKeys(front) {
        BagOldGroup(rs);
      } else {
        BagNewGroup(rs);
      }
      MultisetSnoc(rs);
    }
  }

  lemma InSnoc<T>(s: seq<T>, y: T)
    requires s != []
    ensures y in s <==> y in s[..|s| - 1] || y == s[|s| - 1]
  {
    assert s == s[..|s| - 1] + [s[|s| - 1]];
  }

  lemma MultisetSnoc<T>(s: seq<T>)
    requires s != []
    ensures multiset(s) == multiset(s[..|s| - 1]) + multiset{s[|s| - 1]}
  {
    assert s == s[..|s| - 1] + [s[|s| - 1]];
  }

  /** A resource whose group is already known joins that group's bag. */
  lemma BagOldGroup(rs: seq<Resource>)
    requires rs != [] && Distinct(GroupKeys(rs[..|rs| - 1]))
    requires GroupOf(rs[|rs| - 1]) in GroupKeys(rs[..|rs| - 1])
    ensures Bag(rs, GroupKeys(rs)) == Bag(rs[..|rs| - 1], GroupKeys(rs[..|rs| - 1])) + multiset{rs[|rs| - 1]}
  {
    BagSnoc(rs, GroupKeys(rs[..|rs| - 1]));
  }

  /** A resource with a new group forms that group on its own. */
  lemma BagNewGroup(rs: seq<Resource>)
    requires rs != [] && Distinct(GroupKeys(rs[..|rs| - 1]))
    requires GroupOf(rs[|rs| - 1]) !in GroupKeys(rs[..|rs| - 1])
    ensures Bag(rs, GroupKeys(rs)) == Bag(rs[..|rs| - 1], GroupKeys(rs[..|rs| - 1])) + multiset{rs[|rs| - 1]}
  {
    var front, x := rs[..|rs| - 1], rs[|rs| - 1];
    var keys := GroupKeys(front);
    var g := GroupOf(x);
    assert Bag(rs, keys + [g]) == Bag(rs, keys) + multiset(Members(rs, g)) by {
      assert (keys + [g])[..|keys|] == keys;
    }
    assert Bag(rs, keys) == Bag(front, keys) by {
      BagSnoc(rs, keys);
    }
    assert Members(rs, g) == [x] by {
      GroupKeysListed(front, g);
    }
  }

  /** Inserting a key adds its group to the bag. */
  lemma {:induction false} BagInsert(rs: seq<Resource>, k: int, ks: seq<int>, key: int -> (string, string))
    ensures Bag(rs, InsertBy(k, ks, key)) == Bag(rs, ks) + multiset(Members(rs, k))
  {
    if ks != [] {
      assert ks == [ks[0]] + ks[1..];
      if KeyLess(key(k), key(ks[0])) {
        BagAppend(rs, [k], ks);
        BagAppend(rs, [], [k]);
      } else {
        BagInsert(rs, k, ks[1..], key);
        BagAppend(rs, [ks[0]], InsertBy(k, ks[1..], key));
        BagAppend(rs, [ks[0]], ks[1..]);
      }
    } else {
      BagAppend(rs, [], [k]);
    }
  }

  /** Sorting the keys does not change which resources they hold. */
  lemma {:induction false} BagSort(rs: seq<Resource>, ks: seq<int>, key: int -> (string, string))
    ensures Bag(rs, SortBy(ks, key)) == Bag(rs, ks)
  {
    if ks != [] {
      var front := ks[..|ks| - 1];
      BagSort(rs, front, key);
      BagInsert(rs, ks[|ks| - 1], SortBy(front, key), key);
    }
  }

  // ---------------------------------------------------------------------
  // The rows of a month grid

  /** The name a group sorts by: its role's name, `ZZZ` for a key that is
      not a known role. */
  function GroupName(roles: map<int, Role>, k: int): string {
    if k in roles then roles[k].name else "ZZZ"
  }

  /** `role_sort_key`, as a pair with an empty second part. */
  function RoleKey(roles: map<int, Role>): int -> (string, string) {
    k => (GroupName(roles, k), "")
  }

  /** `(r.last_name or "", r.first_name or "")`. */
  function NameKey(r: Resource): (string, string) {
    (OrElse(r.lastName, ""), OrElse(r.firstName, ""))
  }

  /** One entry of `ordered`: the role (None without a known one) and its
      resources sorted by name. */
  datatype Group = Group(role: Option<Role>, members: seq<Resource>)

  function OrderedKeys(rs: seq<Resource>, roles: map<int, Role>): seq<int> {
    SortBy(GroupKeys(rs), RoleKey(roles))
  }

  /** The entries of `ordered` for the keys `ks`. */
  function GroupsFor(rs: seq<Resource>, roles: map<int, Role>, ks: seq<int>): (gs: seq<Group>)
    ensures |gs| == |ks|
  {
    if ks == [] then []
    else
      var k := ks[|ks| - 1];
      GroupsFor(rs, roles, ks[..|ks| - 1]) + [MakeGroup(roles, k, Members(rs, k))]
  }

  /** One entry of `ordered`: the role of key `k` and its resources by name. */
  function MakeGroup(roles: map<int, Role>, k: int, members: seq<Resource>): Group {
    Group(if k in roles then Some(roles[k]) else None, SortBy(members, NameKey))
  }

  /** `ordered` in `_build_rows`. */
  function OrderedGroups(rs: seq<Resource>, roles: map<int, Role>): seq<Group> {
    GroupsFor(rs, roles, OrderedKeys(rs, roles))
  }

  function Somes(rs: seq<Resource>): seq<Option<Resource>> {
    seq(|rs|, i requires 0 <= i < |rs| => Some(rs[i]))
  }

  /** `row_to_resource`: per group a group row (None), then its resources. */
  function Layout(gs: seq<Group>): seq<Option<Resource>> {
    if gs == [] then [] else Layout(gs[..|gs| - 1]) + [None] + Somes(gs[|gs| - 1].members)
  }

  /** `group_rows`: the index of each group row and the group's role. */
  function GroupRowMap(gs: seq<Group>): map<int, Option<Role>> {
    if gs == [] then map[]
    else GroupRowMap(gs[..|gs| - 1])[|Layout(gs[..|gs| - 1])| := gs[|gs| - 1].role]
  }

  /** All members of the groups, group after group. */
  function AllMembers(gs: seq<Group>): seq<Resource> {
    if gs == [] then [] else AllMembers(gs[..|gs| - 1]) + gs[|gs| - 1].members
  }

  /** The resources of the resource rows, top to bottom. */
  function RowResources(rows: seq<Option<Resource>>): seq<Resource> {
    if rows == [] then []
    else RowResources(rows[..|rows| - 1]) + (if rows[|rows| - 1].Some? then [rows[|rows| - 1].value] else [])
  }

  lemma {:induction false} RowResourcesAppend(a: seq<Option<Resource>>, b: seq<Option<Resource>>)
    ensures RowResources(a + b) == RowResources(a) + RowResources(b)
    decreases |b|
  {
    if b != [] {
      var b' := b[..|b| - 1];
      RowResourcesAppend(a, b');
      assert (a + b)[..|a + b| - 1] == a + b';
    } else {
      assert a + b == a;
    }
  }

  lemma {:induction false} RowResourcesOfSomes(rs: seq<Resource>)
    ensures RowResources(Somes(rs)) == rs
  {
    if rs != [] {
      var front := rs[..|rs| - 1];
      RowResourcesOfSomes(front);
      assert Somes(rs)[..|rs| - 1] == Somes(front);
    }
  }

  /** The layout has one row per group plus one per member, and its
      resource rows list the members group after group. */
  lemma {:induction false} LayoutHolds(gs: seq<Group>)
    ensures |Layout(gs)| == |gs| + |AllMembers(gs)|
    ensures RowResources(Layout(gs)) == AllMembers(gs)
  {
    if gs != [] {
      var front := gs[..|gs| - 1];
      var g := gs[|gs| - 1];
      LayoutHolds(front);
      RowResourcesGroup(Layout(front), g.members);
    }
  }

  /** Appending a group row and a group's members to some rows appends the
      members to their resources. */
  lemma RowResourcesGroup(before: seq<Option<Resource>>, ms: seq<Resource>)
    ensures RowResources(before + [None] + Somes(ms)) == RowResources(before) + ms
  {
    var groupRow: seq<Option<Resource>> := [None];
    RowResourcesAppend(before + groupRow, Somes(ms));
    RowResourcesAppend(before, groupRow);
    assert groupRow[..0] == [];
    RowResourcesOfSomes(ms);
  }

  /** `group_rows` holds exactly the indices of the rows without a
      resource. */
  lemma {:induction false} GroupRowsAreGroupRows(gs: seq<Group>, i: int)
    ensures i in GroupRowMap(gs) <==> 0 <= i < |Layout(gs)| && Layout(gs)[i].None?
  {
    if gs != [] {
      var front := gs[..|gs| - 1];
      var g := gs[|gs| - 1];
      GroupRowsAreGroupRows(front, i);
      var before := Layout(front);
      var rows := Layout(gs);
      if 0 <= i < |before| {
        assert rows[i] == before[i];
      } else if |before| < i < |rows| {
        assert rows[i] == Somes(g.members)[i - |before| - 1];
      }
    }
  }

  /** The members of the groups for `ks` are the resources of their bag. */
  lemma {:induction false} GroupsForMembers(rs: seq<Resource>, roles: map<int, Role>, ks: seq<int>)
    ensures |GroupsFor(rs, roles, ks)| == |ks|
    ensures multiset(AllMembers(GroupsFor(rs, roles, ks))) == Bag(rs, ks)
  {
    if ks != [] {
      var front := ks[..|ks| - 1];
      GroupsForMembers(rs, roles, front);
      var gs := GroupsFor(rs, roles, ks);
      assert gs[..|gs| - 1] == GroupsFor(rs, roles, front);
      SortByIs(Members(rs, ks[|ks| - 1]), NameKey);
    }
  }

  /** Every resource gets exactly one row, so a grid has one row per group
      plus one per resource. */
  lemma RowsHoldEveryResource(rs: seq<Resource>, roles: map<int, Role>)
    ensures multiset(RowResources(Layout(OrderedGroups(rs, roles)))) == multiset(rs)
    ensures |Layout(OrderedGroups(rs, roles))| == |GroupKeys(rs)| + |rs|
  {
    var gs := OrderedGroups(rs, roles);
    var keys := OrderedKeys(rs, roles);
    LayoutHolds(gs);
    GroupsForMembers(rs, roles, keys);
    BagSort(rs, GroupKeys(rs), RoleKey(roles));
    BagOfGroups(rs);
    SortByIs(GroupKeys(rs), RoleKey(roles));
    var all := AllMembers(gs);
    assert multiset(all) == multiset(rs);
    assert |all| == |multiset(all)| == |multiset(rs)| == |rs|;
    assert |keys| == |multiset(keys)| == |multiset(GroupKeys(rs))| == |GroupKeys(rs)|;
  }

  /** The group for the i-th key. */
  lemma {:induction false} GroupsForAt(rs: seq<Resource>, roles: map<int, Role>, ks: seq<int>, i: int)
    requires 0 <= i < |ks|
    ensures |GroupsFor(rs, roles, ks)| == |ks|
    ensures GroupsFor(rs, roles, ks)[i].members == SortBy(Members(rs, ks[i]), NameKey)
    ensures GroupsFor(rs, roles, ks)[i].role == if ks[i] in roles then Some(roles[ks[i]]) else None
    decreases |ks|
  {
    GroupsForMembers(rs, roles, ks);
    var front := ks[..|ks| - 1];
    if i < |ks| - 1 {
      GroupsForAt(rs, roles, front, i);
    }
  }

  /** Groups come in order of role name, unknown roles as `ZZZ`, each
      group is the resources with its key and they are in order of
      (last name, first name). */
  lemma GroupsInOrder(rs: seq<Resource>, roles: map<int, Role>, i: int, j: int)
    requires 0 <= i < j < |OrderedKeys(rs, roles)|
    ensures !StrLess(GroupName(roles, OrderedKeys(rs, roles)[j]), GroupName(roles, OrderedKeys(rs, roles)[i]))
    ensures SortedBy(OrderedGroups(rs, roles)[i].members, NameKey)
    ensures forall x :: x in OrderedGroups(rs, roles)[i].members <==> x in rs && GroupOf(x) == OrderedKeys(rs, roles)[i]
  {
    var keys := OrderedKeys(rs, roles);
    SortByIs(GroupKeys(rs), RoleKey(roles));
    assert !KeyLess(RoleKey(roles)(keys[j]), RoleKey(roles)(keys[i]));
    GroupsForAt(rs, roles, keys, i);
    var m := Members(rs, keys[i]);
    SortByIs(m, NameKey);
    forall x
      ensures x in OrderedGroups(rs, roles)[i].members <==> x in rs && GroupOf(x) == keys[i]
    {
      assert x in SortBy(m, NameKey) <==> x in multiset(m);
      if x in m {
        MembersBelong(rs, keys[i], x);
      }
      if x in rs && GroupOf(x) == keys[i] {
        MembersComplete(rs, x);
      }
    }
  }

  /** Every resource is a member of its own group. */
  lemma {:induction false} MembersComplete(rs: seq<Resource>, x: Resource)
    requires x in rs
    ensures x in Members(rs, GroupOf(x))
  {
    var front := rs[..|rs| - 1];
    assert rs == front + [rs[|rs| - 1]];
    if x in front {
      MembersComplete(front, x);
    }
  }

  /** `_build_rows`: groups the resources by role, orders the groups by
      role name and each group by name, then lays out one group row per
      group followed by its resources. */
  method BuildRows(resources: seq<Resource>, roles: map<int, Role>)
    returns (rows: seq<Option<Resource>>, groupRows: map<int, Option<Role>>)
    ensures rows == Layout(OrderedGroups(resources, roles))
    ensures groupRows == GroupRowMap(OrderedGroups(resources, roles))
  {
    var keys, byRole := GroupByRole(resources);
    var ordered := OrderGroups(resources, roles, keys, byRole);
    rows, groupRows := LayOut(ordered);
  }

  /** The `ordered` loop: the groups in order of role name, each with its
      resources sorted by name. */
  method OrderGroups(resources: seq<Resource>, roles: map<int, Role>, keys: seq<int>, byRole: map<int, seq<Resource>>)
    returns (ordered: seq<Group>)
    requires keys == GroupKeys(resources)
    requires forall k :: k in keys ==> k in byRole && byRole[k] == Members(resources, k)
    ensures ordered == OrderedGroups(resources, roles)
  {
    var sortedKeys := SortBy(keys, RoleKey(roles));
    ordered := [];
    for g := 0 to |sortedKeys|
      invariant ordered == GroupsFor(resources, roles, sortedKeys[..g])
    {
      var k := sortedKeys[g];
      assert k in byRole && byRole[k] == Members(resources, k) by {
        SortByKeeps(keys, RoleKey(roles), k);
      }
      GroupsForStep(resources, roles, sortedKeys, g);
      ordered := ordered + [MakeGroup(roles, k, byRole[k])];
    }
    assert sortedKeys[..|sortedKeys|] == sortedKeys;
  }

  /** The groups for one more key. */
  lemma GroupsForStep(rs: seq<Resource>, roles: map<int, Role>, ks: seq<int>, g: int)
    requires 0 <= g < |ks|
    ensures GroupsFor(rs, roles, ks[..g + 1])
            == GroupsFor(rs, roles, ks[..g])
               + [MakeGroup(roles, ks[g], Members(rs, ks[g]))]
  {
    assert ks[..g + 1][..g] == ks[..g];
  }

  /** The row loop: per group a group row, remembered in `group_rows`,
      then one row per resource. */
  method LayOut(ordered: seq<Group>) returns (rows: seq<Option<Resource>>, groupRows: map<int, Option<Role>>)
    ensures rows == Layout(ordered)
    ensures groupRows == GroupRowMap(ordered)
  {
    rows := [];
    groupRows := map[];
    for g := 0 to |ordered|
      invariant rows == Layout(ordered[..g]) && groupRows == GroupRowMap(ordered[..g])
    {
      assert ordered[..g + 1][..g] == ordered[..g];
      rows := rows + [None];
      groupRows := groupRows[|rows| - 1 := ordered[g].role];
      rows := AppendMembers(rows, ordered[g].members);
    }
    assert ordered[..|ordered|] == ordered;
  }

  /** The `by_role` loop: each resource is appended to the list of its key,
      a new key going at the end. */
  method GroupByRole(resources: seq<Resource>) returns (keys: seq<int>, byRole: map<int, seq<Resource>>)
    ensures keys == GroupKeys(resources)
    ensures forall k :: k in byRole <==> k in keys
    ensures forall k :: k in byRole ==> byRole[k] == Members(resources, k)
  {
    keys := [];
    byRole := map[];
    for i := 0 to |resources|
      invariant keys == GroupKeys(resources[..i])
      invariant forall k :: k in byRole <==> k in keys
      invariant forall k :: k in byRole ==> byRole[k] == Members(resources[..i], k)
    {
      var r := resources[i];
      var k := if r.roleId != 0 then r.roleId else -1;
      assert resources[..i + 1][..i] == resources[..i];
      if k !in byRole {
        GroupKeysListed(resources[..i], k);
        keys := keys + [k];
        byRole := byRole[k := []];
      }
      byRole := byRole[k := byRole[k] + [r]];
    }
    assert resources[..|resources|] == resources;
  }

  /** The inner loop of `_build_rows`: one row per member, in order. */
  method AppendMembers(rows: seq<Option<Resource>>, members: seq<Resource>) returns (out: seq<Option<Resource>>)
    ensures out == rows + Somes(members)
  {
    out := rows;
    for j := 0 to |members|
      invariant out == rows + Somes(members[..j])
    {
      assert Somes(members[..j + 1]) == Somes(members[..j]) + [Some(members[j])];
      out := out + [Some(members[j])];
    }
    assert members[..|members|] == members;
  }

  // ---------------------------------------------------------------------
  // Cells of a resource row

  const WeekendColor := "#BDBDBD"
  const HolidayColor := "#FFD6D6"

  /** What a resource cell shows: its text and, when set, its background. */
  datatype Cell = Cell(text: string, background: Option<string>)

  /** `leave_on(rid, d)` as the cell reads it: the code, or "" without a row. */
  function LeaveText(db: Db, rid: int, d: Day): string {
    if (rid, d) in db.vacations then db.vacations[(rid, d)] else ""
  }

  /** The colour of a code that is known and has a non-empty colour. */
  function CodeColor(codes: CodeTable, code: string): Option<string> {
    if code in codes && codes[code].colorHex != "" then Some(codes[code].colorHex) else None
  }

  /** The cell rule of `refresh_cells` for a resource row.  A failure is the
      error `fixed_off_effect_for` raises. */
  function ResourceCell(db: Db, codes: CodeTable, rid: int, d: Day): Result<Cell, LogicError> {
    var txt := LeaveText(db, rid, d);
    if IsWeekend(d) then Success(Cell(txt, Some(WeekendColor)))
    else if d in db.holidays then Success(Cell(if txt == "" then "F" else txt, Some(HolidayColor)))
    else if txt != "" then Success(Cell(txt, CodeColor(codes, txt)))
    else
      match FixedOffEffectFor(db, rid, d)
      case Failure(e) => Failure(e)
      case Success(eff) =>
        if eff.code.Some? && eff.code.value != "" then Success(Cell(eff.code.value, CodeColor(codes, eff.code.value)))
        else Success(Cell("", None))
  }

  /** The precedence of the cell rule: a weekend colours the cell grey
      whatever it holds; a holiday colours it red and shows `F` unless
      there is leave; leave shows its code; only a day without any of
      these shows the fixed day off, and it is never `F` on a workday that
      is not a holiday. */
  lemma CellPrecedence(db: Db, codes: CodeTable, rid: int, d: Day)
    ensures IsWeekend(d) ==> ResourceCell(db, codes, rid, d) == Success(Cell(LeaveText(db, rid, d), Some(WeekendColor)))
    ensures !IsWeekend(d) && d in db.holidays ==>
              ResourceCell(db, codes, rid, d).Success?
              && ResourceCell(db, codes, rid, d).value.background == Some(HolidayColor)
              && (ResourceCell(db, codes, rid, d).value.text == "F" <==> LeaveText(db, rid, d) in {"", "F"})
    ensures !IsWeekend(d) && d !in db.holidays && LeaveText(db, rid, d) != "" ==>
              ResourceCell(db, codes, rid, d) == Success(Cell(LeaveText(db, rid, d), CodeColor(codes, LeaveText(db, rid, d))))
    ensures !IsWeekend(d) && d !in db.holidays && LeaveText(db, rid, d) == "" && ResourceCell(db, codes, rid, d).Success? ==>
              ResourceCell(db, codes, rid, d).value.text in {"", "VV", "VO", "VM"}
  {
    if !IsWeekend(d) && d !in db.holidays && LeaveText(db, rid, d) == "" {
      FixedOffEffectCodes(db, rid, d);
    }
  }

  /** Every code `fixed_off_effect_for` gives is VV, VO or VM. */
  lemma FixedOffEffectCodes(db: Db, rid: int, d: Day)
    ensures var r := FixedOffEffectFor(db, rid, d);
            r.Success? && r.value.code.Some? ==> r.value.code.value in {"VV", "VO", "VM"}
  {
    FixedOffWeeklyCases(db.fixedOff, rid, d);
    if (rid, d) in db.exceptions {
      var p := ExceptionPart(db.exceptions[(rid, d)]);
      assert PartCode(p) in {"VV", "VO", "VM"};
    }
  }

  // ---------------------------------------------------------------------
  // Tooltips

  /** `_vv_human(code)`. */
  function VvHuman(code: string): string {
    if code == "VO" then "Vaste vrije dag (ochtend)"
    else if code == "VM" then "Vaste vrije dag (middag)"
    else if code == "VV" then "Vaste vrije dag (hele dag)"
    else "Vaste vrije dag"
  }

  /** Each code the fixed-off rules produce has its own description,
      naming the part of the day it covers. */
  lemma VvHumanDescribesEffects(db: Db, rid: int, d: Day)
    ensures var r := FixedOffEffectFor(db, rid, d);
            r.Success? && r.value.code.Some? ==>
              VvHuman(r.value.code.value) != "Vaste vrije dag"
              && (r.value.code.value == "VV" <==> VvHuman(r.value.code.value) == "Vaste vrije dag (hele dag)")
  {
    FixedOffEffectCodes(db, rid, d);
  }

  /** `s.strip(" –")`: drops spaces and dashes from both ends. */
  function StripDash(s: string): string
    decreases |s|
  {
    if s != [] && (s[0] == ' ' || s[0] == '–') then StripDash(s[1..])
    else if s != [] && (s[|s| - 1] == ' ' || s[|s| - 1] == '–') then StripDash(s[..|s| - 1])
    else s
  }

  /** The tooltip `_show_tooltip` sets on a resource cell. */
  function ResourceTooltip(db: Db, codes: CodeTable, rid: int, d: Day): Result<string, LogicError> {
    var code := LeaveText(db, rid, d);
    if IsWeekend(d) then Success("Weekend")
    else if d in db.holidays then Success(db.holidays[d])
    else if code != "" then
      Success(StripDash(code + " – " + (if code in codes then codes[code].labelText else "")))
    else
      match FixedOffEffectFor(db, rid, d)
      case Failure(e) => Failure(e)
      case Success(eff) =>
        if eff.code.Some? && eff.code.value != "" then Success(VvHuman(eff.code.value)) else Success("Aanwezig")
  }

  /** The tooltip explains what the cell shows: an empty workday cell is
      `Aanwezig`, a fixed day off is described by its part of the day, and
      both fail together. */
  lemma TooltipMatchesCell(db: Db, codes: CodeTable, rid: int, d: Day)
    ensures ResourceCell(db, codes, rid, d).Success? <==> ResourceTooltip(db, codes, rid, d).Success?
    ensures !IsWeekend(d) && ResourceCell(db, codes, rid, d).Success? && ResourceCell(db, codes, rid, d).value.text == "" ==>
              ResourceTooltip(db, codes, rid, d) == Success("Aanwezig")
    ensures !IsWeekend(d) && d !in db.holidays && LeaveText(db, rid, d) == "" && ResourceCell(db, codes, rid, d).Success?
            && ResourceCell(db, codes, rid, d).value.text != "" ==>
              ResourceTooltip(db, codes, rid, d) == Success(VvHuman(ResourceCell(db, codes, rid, d).value.text))
  {
  }

  // ---------------------------------------------------------------------
  // Names and selections

  /** `_resource_display_name(r)`: the non-empty names joined by a space,
      else the full name, else `Onbekend`. */
  function DisplayName(r: Resource): string {
    var parts := (if OrElse(r.firstName, "") != "" then [r.firstName.value] else [])
               + (if OrElse(r.lastName, "") != "" then [r.lastName.value] else []);
    if parts != [] then Join(parts, " ") else OrElse(Some(FullName(r)), "Onbekend")
  }

  /** The display name is never empty: with names it is those names, with
      none the full name is empty too and the fallback `Onbekend` shows. */
  lemma DisplayNameIs(r: Resource)
    ensures DisplayName(r) != ""
    ensures OrElse(r.firstName, "") != "" && OrElse(r.lastName, "") != "" ==>
              DisplayName(r) == r.firstName.value + " " + r.lastName.value
    ensures OrElse(r.firstName, "") != "" && OrElse(r.lastName, "") == "" ==> DisplayName(r) == r.firstName.value
    ensures OrElse(r.firstName, "") == "" && OrElse(r.lastName, "") != "" ==> DisplayName(r) == r.lastName.value
    ensures OrElse(r.firstName, "") == "" && OrElse(r.lastName, "") == "" ==> DisplayName(r) == "Onbekend"
  {
    FullNameJoins(r);
    if OrElse(r.firstName, "") != "" && OrElse(r.lastName, "") != "" {
      var parts := [r.firstName.value, r.lastName.value];
      assert Join(parts, " ") == parts[0] + " " + Join(parts[1..], " ");
    }
  }

  /** One selected block of cells: its first and last row and column. */
  datatype SelectionRange = SelectionRange(topRow: int, bottomRow: int, leftColumn: int, rightColumn: int)

  /** The month grid of one month: its rows as `_build_rows` lays them out. */
  class MonthGrid {
    const year: int
    const month: int
    var rows: seq<Option<Resource>>
    var groupRows: map<int, Option<Role>>

    /** `__init__` up to the cells: the rows of the given resources. */
    constructor (year: int, month: int, resources: seq<Resource>, roles: map<int, Role>)
      requires ValidDate(year, month, 1)
      ensures this.year == year && this.month == month
      ensures rows == Layout(OrderedGroups(resources, roles))
      ensures groupRows == GroupRowMap(OrderedGroups(resources, roles))
    {
      this.year := year;
      this.month := month;
      var r, g := BuildRows(resources, roles);
      rows := r;
      groupRows := g;
    }

    /** `row_count()`. */
    function RowCount(): nat
      reads this
    {
      |rows|
    }

    /** `_selected_range_dates()`: the resource and the first and last date
        of the first selected block, when it is a single resource row within
        the day columns; column c is day c of the month. */
    function SelectedRangeDates(ranges: seq<SelectionRange>): (sel: Option<(Resource, Day, Day)>)
      reads this
      requires ValidDate(year, month, 1)
      requires ranges != [] ==> 0 <= ranges[0].topRow < |rows|
      requires ranges != [] ==> ranges[0].leftColumn <= ranges[0].rightColumn <= DaysInMonth(year, month)
      ensures sel.Some? <==>
                ranges != [] && ranges[0].bottomRow == ranges[0].topRow && rows[ranges[0].topRow].Some?
                && ranges[0].leftColumn >= 1
      ensures sel.Some? ==>
                sel.value.0 == rows[ranges[0].topRow].value
                && sel.value.1 == MakeDate(year, month, 1) + ranges[0].leftColumn - 1
                && sel.value.2 == MakeDate(year, month, 1) + ranges[0].rightColumn - 1
                && sel.value.1 <= sel.value.2
    {
      if ranges == [] then None
      else
        var sr := ranges[0];
        if sr.bottomRow != sr.topRow then None
        else if rows[sr.topRow].None? then None
        else if sr.leftColumn < 1 then None
        else Some((rows[sr.topRow].value, MakeDate(year, month, sr.leftColumn), MakeDate(year, month, sr.rightColumn)))
    }
  }
}
