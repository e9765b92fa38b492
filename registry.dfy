/**
  The update registry of a runtime element: for each proxy name, the list
  of `{isValid, update}` entries the generated constructor registered.
  `isValid` reads the page (is the element still attached, was it removed
  by a loop rebuild), so it is judged against a `world` given by the
  caller; `update` is an action identified by a number.
*/
module Registry {

  /** The `isValid` of an entry: the default `() => true`, or a check of
      the page identified by a number. */
  datatype Guard = Always | Check(id: nat)

  datatype Update = Update(guard: Guard, action: nat)

  type Updates = map<string, seq<Update>>

  predicate Holds(g: Guard, world: nat -> bool) {
    match g
    case Always => true
    case Check(id) => world(id)
  }

  /** The list stored under `key`, an absent key reading as empty. */
  function Lookup(u: Updates, key: string): seq<Update> {
    if key in u then u[key] else []
  }

  /** `a` is `b` with some entries dropped and the rest in their order. */
  predicate Subsequence<T(==)>(a: seq<T>, b: seq<T>)
    decreases |b|
  {
    if b == [] then a == []
    else (a != [] && a[|a| - 1] == b[|b| - 1] && Subsequence(a[..|a| - 1], b[..|b| - 1])) ||
         Subsequence(a, b[..|b| - 1])
  }

  /** `list.filter((update) => update.isValid())`. */
  function Valid(us: seq<Update>, world: nat -> bool): (r: seq<Update>)
    ensures |r| <= |us|
    ensures forall u :: u in r <==> u in us && Holds(u.guard, world)
  {
    if us == [] then []
    else
      var init := Valid(us[..|us| - 1], world);
      var last := us[|us| - 1];
      assert forall u :: u in us <==> u in us[..|us| - 1] || u == last by {
        assert us == us[..|us| - 1] + [last];
      }
      if Holds(last.guard, world) then init + [last] else init
  }

  /** The updates run, in order, for the list `us`. */
  function Actions(us: seq<Update>): (r: seq<nat>)
    ensures |r| == |us| && forall k :: 0 <= k < |us| ==> r[k] == us[k].action
  {
    if us == [] then [] else Actions(us[..|us| - 1]) + [us[|us| - 1].action]
  }

  /** `$getUpdates`' effect: an absent key gets an empty list; the other
      keys, and an existing list, are kept (so a second call changes
      nothing). */
  function Installed(u: Updates, key: string): (r: Updates)
    ensures key in r && r[key] == Lookup(u, key)
    ensures r.Keys == u.Keys + {key}
    ensures forall k :: k in u ==> r[k] == u[k]
  {
    if key in u then u else u[key := []]
  }

  /** `$filterUpdates`' effect: every list keeps its valid entries. */
  function FilterAll(u: Updates, world: nat -> bool): Updates {
    map k | k in u :: Valid(u[k], world)
  }

  // ---------------------------------------------------------------------------
  // Laws

  /** Filtering keeps the order of the entries it keeps. */
  lemma {:induction false} ValidIsSubsequence(us: seq<Update>, world: nat -> bool)
    ensures Subsequence(Valid(us, world), us)
  {
    if us != [] {
      var init := us[..|us| - 1];
      var last := us[|us| - 1];
      ValidIsSubsequence(init, world);
      if Holds(last.guard, world) {
        var r := Valid(us, world);
        assert r[..|r| - 1] == Valid(init, world);
      }
    }
  }

  /** Filtering twice against the same page is filtering once. */
  lemma {:induction false} ValidIdempotent(us: seq<Update>, world: nat -> bool)
    ensures Valid(Valid(us, world), world) == Valid(us, world)
  {
    if us != [] {
      var init := us[..|us| - 1];
      var last := us[|us| - 1];
      ValidIdempotent(init, world);
      var v := Valid(init, world);
      if Holds(last.guard, world) {
        assert (v + [last])[..|v + [last]| - 1] == v;
      }
    }
  }

  /** An entry registered last runs last, if it is valid. */
  lemma ValidAppend(us: seq<Update>, u: Update, world: nat -> bool)
    ensures Valid(us + [u], world) == Valid(us, world) + (if Holds(u.guard, world) then [u] else [])
  {
    assert (us + [u])[..|us + [u]| - 1] == us;
  }

  /** An entry registered with the default `isValid` runs after every
      earlier valid entry, at the next dispatch. */
  lemma DefaultEntryRunsLast(us: seq<Update>, a: nat, world: nat -> bool)
    ensures Actions(Valid(us + [Update(Always, a)], world)) == Actions(Valid(us, world)) + [a]
  {
    ValidAppend(us, Update(Always, a), world);
    var v := Valid(us, world) + [Update(Always, a)];
    assert v[..|v| - 1] == Valid(us, world);
  }

  /** An action is run by a dispatch exactly when some valid entry carries
      it. */
  lemma ActionsOfValid(us: seq<Update>, world: nat -> bool, a: nat)
    ensures a in Actions(Valid(us, world)) <==> exists u :: u in us && Holds(u.guard, world) && u.action == a
  {
    var v := Valid(us, world);
    if a in Actions(v) {
      var k :| 0 <= k < |v| && Actions(v)[k] == a;
      assert v[k] in v;
    }
    if exists u :: u in us && Holds(u.guard, world) && u.action == a {
      var u :| u in us && Holds(u.guard, world) && u.action == a;
      var k :| 0 <= k < |v| && v[k] == u;
      assert Actions(v)[k] == a;
    }
  }

  /** `$filterUpdates` keeps the keys, filters each list, and a second
      call against the same page changes nothing. */
  lemma {:induction false} FilterAllLaws(u: Updates, world: nat -> bool)
    ensures FilterAll(u, world).Keys == u.Keys
    ensures forall k :: k in u ==> Subsequence(FilterAll(u, world)[k], u[k])
    ensures FilterAll(FilterAll(u, world), world) == FilterAll(u, world)
  {
    var f := FilterAll(u, world);
    forall k | k in u
      ensures Subsequence(f[k], u[k]) && Valid(f[k], world) == f[k]
    {
      ValidIsSubsequence(u[k], world);
      ValidIdempotent(u[k], world);
    }
  }
}
