/** The `push` and `status` commands of the sync CLI (crates/client-cli/src/actions/push.rs
    and status.rs). Each walks the actions of a diff between the local tree, the saved
    state and the remote tree, keeps a fixed set of action kinds in diff order, and hands
    the kept list to `Repository::apply_actions`.

    The items an action refers to (shared, lock-protected tree items in the source) are
    named by an `ItemRef`. Building the diff and applying actions are not part of this
    model: a run's effect is the list of the argument lists `apply_actions` was called
    with. */
module Actions {
  import opened JsValues

  type ItemRef = nat

  /** The sixteen kinds of `Action`, with the items each one carries. */
  datatype Action =
    | ResyncLocal(scanned: ItemRef)
    | ConflictAddLocalNewer(scanned: ItemRef, remote: ItemRef)
    | ErrorRemoteDowngraded(scanned: ItemRef, remote: ItemRef)
    | LocalUpgraded(scanned: ItemRef, remote: ItemRef)
    | ConflictBothDowngraded(scanned: ItemRef, local: ItemRef, remote: ItemRef)
    | ConflictBothUpgraded(scanned: ItemRef, local: ItemRef, remote: ItemRef)
    | ConflictLocalUpgradedRemoteDowngraded(scanned: ItemRef, local: ItemRef, remote: ItemRef)
    | ConflictAddRemoteNewer(scanned: ItemRef, remote: ItemRef)
    | RemoteUpgraded(scanned: ItemRef, remote: ItemRef)
    | ErrorLocalDowngraded(scanned: ItemRef, remote: ItemRef)
    | ConflictLocalDowngradedRemoteUpgraded(scanned: ItemRef, local: ItemRef, remote: ItemRef)
    | RemoteRemoved(scanned: ItemRef)
    | LocalAdded(scanned: ItemRef)
    | LocalRemoved(local: ItemRef, remote: ItemRef)
    | RemoteAdded(remote: ItemRef)
    | RemovedOnBothSides(local: ItemRef)

  /** The kinds `push` passes on: all but the four that describe a change made on the remote. */
  predicate PushKeeps(a: Action) {
    !(a.ErrorRemoteDowngraded? || a.RemoteUpgraded? || a.RemoteRemoved? || a.RemoteAdded?)
  }

  /** The kinds `status` collects. */
  predicate StatusKeeps(a: Action) {
    a.ResyncLocal? || a.RemovedOnBothSides?
  }

  /** The actions of `s` that `keep` accepts, in their order in `s`. */
  function Selected(s: seq<Action>, keep: Action -> bool): seq<Action>
    decreases s
  {
    if s == [] then []
    else Selected(s[..|s| - 1], keep) + if keep(s[|s| - 1]) then [s[|s| - 1]] else []
  }

  /** The positions of `s` whose action `keep` accepts, in increasing order. */
  function Positions(s: seq<Action>, keep: Action -> bool): (idx: seq<nat>)
    ensures forall i :: 0 <= i < |idx| ==> idx[i] < |s|
    decreases s
  {
    if s == [] then []
    else Positions(s[..|s| - 1], keep) + if keep(s[|s| - 1]) then [|s| - 1] else []
  }

  /** The positions are listed in increasing order, and they are exactly the accepted ones. */
  lemma {:induction false} PositionsExact(s: seq<Action>, keep: Action -> bool)
    ensures forall i, j :: 0 <= i < j < |Positions(s, keep)| ==> Positions(s, keep)[i] < Positions(s, keep)[j]
    ensures forall j :: 0 <= j < |s| ==> (j in Positions(s, keep) <==> keep(s[j]))
    decreases s
  {
    if s != [] {
      var init := s[..|s| - 1];
      PositionsExact(init, keep);
      forall j | 0 <= j < |init| ensures init[j] == s[j] {}
    }
  }

  /** The selection is `s` read at those positions: an order-preserving subsequence of `s`
      that misses no accepted action. */
  lemma {:induction false} SelectedPositions(s: seq<Action>, keep: Action -> bool)
    ensures |Positions(s, keep)| == |Selected(s, keep)|
    ensures forall i :: 0 <= i < |Selected(s, keep)| ==> s[Positions(s, keep)[i]] == Selected(s, keep)[i]
    decreases s
  {
    if s != [] {
      var init := s[..|s| - 1];
      SelectedPositions(init, keep);
      var prev, sel := Positions(init, keep), Selected(init, keep);
      forall i | 0 <= i < |sel|
        ensures s[Positions(s, keep)[i]] == Selected(s, keep)[i]
      {
        assert Positions(s, keep)[i] == prev[i] && Selected(s, keep)[i] == sel[i];
        assert init[prev[i]] == s[prev[i]];
      }
    }
  }

  /** Every accepted action occurs in the selection as often as in `s`, and no other
      action occurs in it at all. */
  lemma {:induction false} SelectedCounts(s: seq<Action>, keep: Action -> bool, a: Action)
    ensures multiset(Selected(s, keep))[a] == if keep(a) then multiset(s)[a] else 0
    decreases s
  {
    if s != [] {
      var init, last := s[..|s| - 1], s[|s| - 1];
      SelectedCounts(init, keep, a);
      assert s == init + [last];
      assert multiset(s) == multiset(init) + multiset{last};
    }
  }

  /** Selecting from a selection keeps what both tests accept. */
  lemma {:induction false} SelectedTwice(s: seq<Action>, first: Action -> bool, second: Action -> bool,
                                         both: Action -> bool)
    requires forall a :: both(a) == (first(a) && second(a))
    ensures Selected(Selected(s, first), second) == Selected(s, both)
    decreases s
  {
    if s != [] {
      var init, last := s[..|s| - 1], s[|s| - 1];
      SelectedTwice(init, first, second, both);
      var inner := Selected(init, first);
      assert Selected(s, both) == Selected(init, both) + if both(last) then [last] else [];
      if first(last) {
        assert Selected(s, first) == inner + [last];
        assert (inner + [last])[..|inner|] == inner;
        assert Selected(inner + [last], second) == Selected(inner, second) + if second(last) then [last] else [];
      } else {
        assert Selected(s, first) == inner;
      }
    }
  }

  /** What `status` collects is also passed on by `push`, so a `push` after `status`
      applies everything `status` applied. */
  lemma StatusWithinPush(s: seq<Action>)
    ensures Selected(Selected(s, PushKeeps), StatusKeeps) == Selected(s, StatusKeeps)
  {
    SelectedTwice(s, PushKeeps, StatusKeeps, StatusKeeps);
  }

  /** `ActionPush::run` (push.rs lines 13-37) from the diff on: the filter loop, then one
      call of `apply_actions` with the kept list, empty or not. */
  method Push(diff: seq<Action>) returns (applyCalls: seq<seq<Action>>)
    ensures applyCalls == [Selected(diff, PushKeeps)]
  {
    var actions: seq<Action> := [];
    for i := 0 to |diff|
      invariant actions == Selected(diff[..i], PushKeeps)
    {
      assert diff[..i + 1][..i] == diff[..i];
      var action := diff[i];
      match action {
        case ResyncLocal(_) => actions := actions + [action];
        case ConflictAddLocalNewer(_, _) => actions := actions + [action];
        case ErrorRemoteDowngraded(_, _) =>
        case LocalUpgraded(_, _) => actions := actions + [action];
        case ConflictBothDowngraded(_, _, _) => actions := actions + [action];
        case ConflictBothUpgraded(_, _, _) => actions := actions + [action];
        case ConflictLocalUpgradedRemoteDowngraded(_, _, _) => actions := actions + [action];
        case ConflictAddRemoteNewer(_, _) => actions := actions + [action];
        case RemoteUpgraded(_, _) =>
        case ErrorLocalDowngraded(_, _) => actions := actions + [action];
        case ConflictLocalDowngradedRemoteUpgraded(_, _, _) => actions := actions + [action];
        case RemoteRemoved(_) =>
        case LocalAdded(_) => actions := actions + [action];
        case LocalRemoved(_, _) => actions := actions + [action];
        case RemoteAdded(_) =>
        case RemovedOnBothSides(_) => actions := actions + [action];
      }
    }
    assert diff[..|diff|] == diff;
    applyCalls := [actions];
  }

  /** The item whose path `status` prints for an action: the local one for
      `RemovedOnBothSides`, the remote one for `LocalRemoved` and `RemoteAdded`, the
      scanned one otherwise. */
  function PrintedItem(a: Action): (r: ItemRef)
    ensures a.RemovedOnBothSides? ==> r == a.local
    ensures a.LocalRemoved? || a.RemoteAdded? ==> r == a.remote
    ensures !(a.RemovedOnBothSides? || a.LocalRemoved? || a.RemoteAdded?) ==> r == a.scanned
  {
    match a
    case LocalRemoved(_, remote) => remote
    case RemoteAdded(remote) => remote
    case RemovedOnBothSides(local) => local
    case _ => a.scanned
  }

  /** Why `status` can fail once it has a diff: an item whose path from the root cannot be
      built. */
  datatype StatusError = PathError(item: ItemRef)

  /** `ActionStatus::run` (status.rs lines 14-110) from the diff on. `resolvable` holds the
      items whose `path_from_root` succeeds; the first action whose printed item is not
      among them ends the run with that error, before anything is applied. */
  method Status(diff: seq<Action>, resolvable: set<ItemRef>) returns (r: Result<seq<seq<Action>>, StatusError>)
    ensures diff == [] ==> r == Ok([])
    ensures r.Err? <==> exists i :: 0 <= i < |diff| && PrintedItem(diff[i]) !in resolvable
    ensures r.Err? ==> r.error.item !in resolvable &&
                       exists i :: 0 <= i < |diff| && PrintedItem(diff[i]) == r.error.item &&
                                   forall j :: 0 <= j < i ==> PrintedItem(diff[j]) in resolvable
    ensures r.Ok? ==>
              var kept := Selected(diff, StatusKeeps);
              r.value == if kept == [] then [] else [kept]
  {
    if diff == [] {
      return Ok([]);
    }
    var actions: seq<Action> := [];
    for i := 0 to |diff|
      invariant actions == Selected(diff[..i], StatusKeeps)
      invariant forall j :: 0 <= j < i ==> PrintedItem(diff[j]) in resolvable
    {
      assert diff[..i + 1][..i] == diff[..i];
      var action := diff[i];
      match action {
        case ResyncLocal(_) => actions := actions + [action];
        case RemovedOnBothSides(_) => actions := actions + [action];
        case _ =>
      }
      var item := PrintedItem(action);
      if item !in resolvable {
        return Err(PathError(item));
      }
    }
    assert diff[..|diff|] == diff;
    var applyCalls: seq<seq<Action>> := [];
    if actions != [] {
      applyCalls := applyCalls + [actions];
    }
    return Ok(applyCalls);
  }

  /** Each command's selection, described action by action: `push` passes on exactly the
      actions other than the four remote-side kinds, `status` exactly the `ResyncLocal` and
      `RemovedOnBothSides` ones, each as often as the diff holds it. */
  lemma SelectionsByKind(diff: seq<Action>, a: Action)
    ensures multiset(Selected(diff, PushKeeps))[a] ==
              if a.ErrorRemoteDowngraded? || a.RemoteUpgraded? || a.RemoteRemoved? || a.RemoteAdded?
              then 0 else multiset(diff)[a]
    ensures multiset(Selected(diff, StatusKeeps))[a] ==
              if a.ResyncLocal? || a.RemovedOnBothSides? then multiset(diff)[a] else 0
  {
    SelectedCounts(diff, PushKeeps, a);
    SelectedCounts(diff, StatusKeeps, a);
  }

  /** `status` applies nothing when the diff holds no `ResyncLocal` and no
      `RemovedOnBothSides` action, however long it is. */
  lemma {:induction false} StatusNothingToApply(diff: seq<Action>)
    requires forall i :: 0 <= i < |diff| ==> !StatusKeeps(diff[i])
    ensures Selected(diff, StatusKeeps) == []
    decreases diff
  {
    if diff != [] {
      StatusNothingToApply(diff[..|diff| - 1]);
    }
  }
}
