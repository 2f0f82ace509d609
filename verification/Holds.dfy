/** Holds and pins of the block entrance (kubo-store, file-holds and handle in deploy/block_ingest.cljk). */
module Holds {
  import Cids

  type Signer = string
  type CidText = string

  /** Kubo's pins and MFS entries, and one file of dag-cbor holds per signer. */
  datatype State = State(pins: set<CidText>, files: map<Signer, set<CidText>>, mfs: set<(Signer, CidText)>)

  /** MFS takes only raw blocks. */
  predicate UnixFs(cid: CidText) {
    var p := Cids.ParseCid(cid);
    p.Some? && p.value.codec.Raw?
  }

  function Listed(s: State, signer: Signer): set<CidText> {
    if signer in s.files then s.files[signer] else {}
  }

  predicate HeldByAnyone(s: State, cid: CidText) {
    exists signer :: signer in s.files && cid in s.files[signer]
  }

  predicate IsHeld(s: State, signer: Signer, cid: CidText) {
    if UnixFs(cid) then (signer, cid) in s.mfs else cid in Listed(s, signer)
  }

  function AddHold(s: State, signer: Signer, cid: CidText): State {
    s.(files := s.files[signer := Listed(s, signer) + {cid}])
  }

  function RemoveHold(s: State, signer: Signer, cid: CidText): State {
    s.(files := s.files[signer := Listed(s, signer) - {cid}])
  }

  /**
   One authorised request on a block whose bytes match. `done` effects succeed before the process stops
   or a Kubo command fails: a PUT of dag-cbor pins and then records the hold; a DELETE removes the hold
   and then, when nobody is left, the pin.
   */
  datatype Request = Put(signer: Signer, cid: CidText, done: nat) | Delete(signer: Signer, cid: CidText, done: nat)

  function Apply(s: State, r: Request): State {
    match r
    case Put(signer, cid, done) =>
      if IsHeld(s, signer, cid) || done == 0 then s
      else if UnixFs(cid) then s.(mfs := s.mfs + {(signer, cid)})
      else
        var pinned := s.(pins := s.pins + {cid});
        if done == 1 then pinned else AddHold(pinned, signer, cid)
    case Delete(signer, cid, done) =>
      if !IsHeld(s, signer, cid) || done == 0 then s
      else if UnixFs(cid) then s.(mfs := s.mfs - {(signer, cid)})
      else
        var removed := RemoveHold(s, signer, cid);
        if HeldByAnyone(removed, cid) || done == 1 then removed else removed.(pins := removed.pins - {cid})
  }

  /** Every effect of the request takes place. */
  predicate Completes(r: Request) {
    r.done >= 2
  }

  function Run(s: State, requests: seq<Request>): State
    decreases |requests|
  {
    if requests == [] then s else Run(Apply(s, requests[0]), requests[1..])
  }

  // ----- who holds what

  predicate Concerns(r: Request, signer: Signer, cid: CidText) {
    r.signer == signer && r.cid == cid
  }

  /**
   A request changes one signer's hold on one block: a PUT ends with it held and a DELETE without, both kinds
   of blocks alike. Only the effects that took place count: one for a raw block's PUT and any DELETE, two for
   the PUT of a dag-cbor block. Requests on raw blocks touch neither pins nor hold files.
   */
  lemma HeldExact(s: State, r: Request, signer: Signer, cid: CidText)
    ensures var t := Apply(s, r);
            && (IsHeld(t, signer, cid) <==>
                if !Concerns(r, signer, cid) then IsHeld(s, signer, cid)
                else if r.Put? then IsHeld(s, signer, cid) || r.done >= if UnixFs(cid) then 1 else 2
                else IsHeld(s, signer, cid) && r.done == 0)
            && if UnixFs(r.cid) then t.pins == s.pins && t.files == s.files else t.mfs == s.mfs
  {
    hide UnixFs, HeldByAnyone;
  }

  /** In a run without stops a signer holds a block exactly when the signer's last request on it was a PUT. */
  lemma {:induction false} HeldIsLast(s: State, requests: seq<Request>, signer: Signer, cid: CidText)
    requires forall i :: 0 <= i < |requests| ==> Completes(requests[i])
    ensures IsHeld(Run(s, requests), signer, cid) <==>
            || (IsHeld(s, signer, cid) && forall i :: 0 <= i < |requests| ==> !Concerns(requests[i], signer, cid))
            || (exists k :: 0 <= k < |requests| && requests[k].Put? && LastOf(requests, k, signer, cid))
    decreases |requests|
  {
    hide IsHeld, Apply;
    if requests != [] {
      var r, rest := requests[0], requests[1..];
      HeldExact(s, r, signer, cid);
      HeldIsLast(Apply(s, r), rest, signer, cid);
      assert forall i :: 0 <= i < |rest| ==> rest[i] == requests[i + 1];
      LastShifts(requests, signer, cid);
    }
  }

  /** Request `k` is the signer's last one on the block. */
  predicate LastOf(requests: seq<Request>, k: nat, signer: Signer, cid: CidText)
    requires k < |requests|
  {
    Concerns(requests[k], signer, cid) && forall j :: k < j < |requests| ==> !Concerns(requests[j], signer, cid)
  }

  lemma LastShifts(requests: seq<Request>, signer: Signer, cid: CidText)
    requires requests != []
    ensures var rest := requests[1..];
            (exists k :: 0 <= k < |requests| && requests[k].Put? && LastOf(requests, k, signer, cid)) <==>
            || (requests[0].Put? && Concerns(requests[0], signer, cid)
                && forall i :: 0 <= i < |rest| ==> !Concerns(rest[i], signer, cid))
            || (exists k :: 0 <= k < |rest| && rest[k].Put? && LastOf(rest, k, signer, cid))
  {
    hide Concerns;
    var rest := requests[1..];
    forall k | 0 <= k < |rest|
      ensures rest[k] == requests[k + 1] && (LastOf(rest, k, signer, cid) <==> LastOf(requests, k + 1, signer, cid))
    {
      forall j | k < j < |rest|
        ensures rest[j] == requests[j + 1]
      {
      }
      assert forall j :: k + 1 < j < |requests| ==> requests[j] == rest[j - 1];
    }
    assert forall j :: 0 < j < |requests| ==> requests[j] == rest[j - 1];
    if k :| 0 <= k < |requests| && requests[k].Put? && LastOf(requests, k, signer, cid) {
      assert k > 0 ==> LastOf(rest, k - 1, signer, cid) && rest[k - 1].Put?;
    }
    if k :| 0 <= k < |rest| && rest[k].Put? && LastOf(rest, k, signer, cid) {
      assert LastOf(requests, k + 1, signer, cid) && requests[k + 1].Put?;
    }
    if requests[0].Put? && Concerns(requests[0], signer, cid) && forall i :: 0 <= i < |rest| ==> !Concerns(rest[i], signer, cid) {
      assert LastOf(requests, 0, signer, cid);
    }
  }

  // ----- what every run keeps

  /** Every block in a hold file is pinned. */
  ghost predicate HoldsArePinned(s: State) {
    forall cid :: HeldByAnyone(s, cid) ==> cid in s.pins
  }

  lemma ApplyHeld(s: State, r: Request, cid: CidText)
    ensures HeldByAnyone(Apply(s, r), cid) ==>
            HeldByAnyone(s, cid) || (r.Put? && r.cid == cid && !UnixFs(cid) && r.done >= 2)
    ensures r.cid != cid ==> (HeldByAnyone(Apply(s, r), cid) <==> HeldByAnyone(s, cid))
    ensures r.cid != cid ==> (cid in Apply(s, r).pins <==> cid in s.pins)
  {
    var t := Apply(s, r);
    if HeldByAnyone(t, cid) {
      var signer :| signer in t.files && cid in t.files[signer];
      if signer != r.signer {
        assert signer in s.files && cid in s.files[signer];
      } else if cid in Listed(s, r.signer) {
        assert cid in s.files[r.signer];
      }
    }
    if HeldByAnyone(s, cid) && r.cid != cid {
      var signer :| signer in s.files && cid in s.files[signer];
      assert signer in t.files && cid in t.files[signer];
    }
  }

  lemma ApplyKeepsPinned(s: State, r: Request)
    requires HoldsArePinned(s)
    ensures HoldsArePinned(Apply(s, r))
  {
    forall cid | HeldByAnyone(Apply(s, r), cid)
      ensures cid in Apply(s, r).pins
    {
      ApplyHeld(s, r, cid);
    }
  }

  /** At every point of a run with stops anywhere, a dag-cbor block some signer holds is pinned. */
  lemma {:induction false} HeldIsPinned(s: State, requests: seq<Request>)
    requires HoldsArePinned(s)
    ensures var t := Run(s, requests);
            && HoldsArePinned(t)
            && forall signer, cid :: IsHeld(t, signer, cid) && Cids.ParseCid(cid).Some? && Cids.ParseCid(cid).value.codec.DagCbor? ==>
                                       cid in t.pins
    decreases |requests|
  {
    if requests != [] {
      ApplyKeepsPinned(s, requests[0]);
      HeldIsPinned(Apply(s, requests[0]), requests[1..]);
    } else {
      forall signer, cid | IsHeld(s, signer, cid) && !UnixFs(cid)
        ensures cid in s.pins
      {
        assert HeldByAnyone(s, cid);
      }
    }
  }

  /** The request takes away the last hold of the block. */
  predicate LastRelease(s: State, r: Request, cid: CidText) {
    r.Delete? && r.cid == cid && HeldByAnyone(s, cid) && !HeldByAnyone(Apply(s, r), cid)
  }

  predicate SomeLastRelease(s: State, requests: seq<Request>, cid: CidText)
    decreases |requests|
  {
    requests != [] &&
    (LastRelease(s, requests[0], cid) || SomeLastRelease(Apply(s, requests[0]), requests[1..], cid))
  }

  lemma ApplyPin(s: State, r: Request, cid: CidText)
    requires HoldsArePinned(s) && Completes(r) && !UnixFs(cid)
    ensures var t := Apply(s, r);
            cid in t.pins <==> HeldByAnyone(t, cid) || (cid in s.pins && !LastRelease(s, r, cid))
  {
    ApplyHeld(s, r, cid);
    ApplyKeepsPinned(s, r);
    var t := Apply(s, r);
    if r.cid == cid {
      if r.Put? && !IsHeld(s, r.signer, cid) {
        assert r.signer in t.files && cid in t.files[r.signer];
      } else if r.Delete? && IsHeld(s, r.signer, cid) {
        assert r.signer in s.files && cid in s.files[r.signer];
      }
    }
  }

  /**
   In a run without stops a block pinned at the start or not is pinned at the end exactly when some
   signer holds it, or it was pinned at the start and no request took away its last hold.
   */
  lemma {:induction false} PinExact(s: State, requests: seq<Request>, cid: CidText)
    requires HoldsArePinned(s) && !UnixFs(cid) && forall i :: 0 <= i < |requests| ==> Completes(requests[i])
    ensures var t := Run(s, requests);
            cid in t.pins <==>
            HeldByAnyone(t, cid) || (cid in s.pins && !SomeLastRelease(s, requests, cid))
    decreases |requests|
  {
    if requests == [] {
    } else {
      var next := Apply(s, requests[0]);
      ApplyPin(s, requests[0], cid);
      ApplyKeepsPinned(s, requests[0]);
      PinExact(next, requests[1..], cid);
      if HeldByAnyone(next, cid) && !SomeLastRelease(next, requests[1..], cid) {
        NeverBoth(next, requests[1..], cid);
      }
    }
  }

  /** Holds never vanish without a last release. */
  lemma {:induction false} NeverBoth(s: State, requests: seq<Request>, cid: CidText)
    requires HeldByAnyone(s, cid) && !SomeLastRelease(s, requests, cid)
    ensures HeldByAnyone(Run(s, requests), cid)
    decreases |requests|
  {
    if requests != [] {
      var r := requests[0];
      ApplyHeld(s, r, cid);
      if !r.Delete? || r.cid != cid {
        HeldStays(s, r, cid);
      }
      NeverBoth(Apply(s, r), requests[1..], cid);
    }
  }

  lemma HeldStays(s: State, r: Request, cid: CidText)
    requires HeldByAnyone(s, cid) && (!r.Delete? || r.cid != cid)
    ensures HeldByAnyone(Apply(s, r), cid)
  {
    var signer :| signer in s.files && cid in s.files[signer];
    assert signer in Apply(s, r).files && cid in Apply(s, r).files[signer];
  }

  /** The service's own pin, of a block nobody pinned before, exists exactly while some signer holds the block. */
  lemma OwnPinExact(pins: set<CidText>, requests: seq<Request>, cid: CidText)
    requires cid !in pins && !UnixFs(cid) && forall i :: 0 <= i < |requests| ==> Completes(requests[i])
    ensures var t := Run(State(pins, map[], {}), requests);
            cid in t.pins <==> HeldByAnyone(t, cid)
  {
    PinExact(State(pins, map[], {}), requests, cid);
  }

  /** A direct pin another owner placed does not survive the only signer's PUT and DELETE. */
  lemma OtherPinIsLost(pins: set<CidText>, signer: Signer, cid: CidText)
    requires cid in pins && !UnixFs(cid)
    ensures cid !in Run(State(pins, map[], {}), [Put(signer, cid, 2), Delete(signer, cid, 2)]).pins
  {
    var s := State(pins, map[], {});
    var put, del := Put(signer, cid, 2), Delete(signer, cid, 2);
    assert [put, del][1..] == [del];
    assert [del][1..] == [];
    var held := Apply(s, put);
    assert cid in Listed(held, signer);
    var gone := Apply(held, del);
    assert Run(gone, []) == gone;
    assert Run(held, [del]) == gone;
    assert Run(s, [put, del]) == gone;
    assert !HeldByAnyone(RemoveHold(held, signer, cid), cid);
  }

  // ----- the store

  class KuboStore {
    var state: State

    ghost predicate Valid() reads this {
      HoldsArePinned(state)
    }

    constructor (pins: set<CidText>)
      ensures Valid() && state == State(pins, map[], {})
    {
      state := State(pins, map[], {});
    }

    /** At every stop the blocks in hold files are pinned. */
    method HandlePut(signer: Signer, cid: CidText, done: nat) returns (already: bool)
      requires Valid()
      modifies this
      ensures Valid() && state == Apply(old(state), Put(signer, cid, done))
      ensures already == IsHeld(old(state), signer, cid)
    {
      ApplyKeepsPinned(state, Put(signer, cid, done));
      already := IsHeld(state, signer, cid);
      if already || done == 0 {
        return;
      }
      if UnixFs(cid) {
        state := state.(mfs := state.mfs + {(signer, cid)});
        return;
      }
      state := state.(pins := state.pins + {cid});
      if done == 1 {
        return;
      }
      state := state.(files := state.files[signer := Listed(state, signer) + {cid}]);
    }

    method HandleDelete(signer: Signer, cid: CidText, done: nat) returns (found: bool)
      requires Valid()
      modifies this
      ensures Valid() && state == Apply(old(state), Delete(signer, cid, done))
      ensures found == IsHeld(old(state), signer, cid)
    {
      ApplyKeepsPinned(state, Delete(signer, cid, done));
      found := IsHeld(state, signer, cid);
      if !found || done == 0 {
        return;
      }
      if UnixFs(cid) {
        state := state.(mfs := state.mfs - {(signer, cid)});
        return;
      }
      state := state.(files := state.files[signer := Listed(state, signer) - {cid}]);
      if HeldByAnyone(state, cid) || done == 1 {
        return;
      }
      state := state.(pins := state.pins - {cid});
    }

    /**
     The authorised requests, one after the other. When none stops, each block is pinned at the end exactly
     when somebody holds it, or it was pinned before and its last hold was never released.
     */
    method Serve(requests: seq<Request>)
      requires Valid()
      modifies this
      ensures Valid() && state == Run(old(state), requests)
      ensures (forall i :: 0 <= i < |requests| ==> Completes(requests[i])) ==>
                forall cid :: !UnixFs(cid) ==>
                                (cid in state.pins <==> HeldByAnyone(state, cid) ||
                                                        (cid in old(state).pins && !SomeLastRelease(old(state), requests, cid)))
    {
      hide Apply, HeldByAnyone, HoldsArePinned, UnixFs, SomeLastRelease;
      assert requests[0..] == requests;
      for i := 0 to |requests|
        invariant Valid() && Run(old(state), requests) == Run(state, requests[i..])
      {
        assert requests[i..][1..] == requests[i + 1..];
        match requests[i] {
          case Put(signer, cid, done) =>
            var already := HandlePut(signer, cid, done);
          case Delete(signer, cid, done) =>
            var found := HandleDelete(signer, cid, done);
        }
      }
      if forall i :: 0 <= i < |requests| ==> Completes(requests[i]) {
        forall cid | !UnixFs(cid)
          ensures cid in state.pins <==> HeldByAnyone(state, cid) ||
                                         (cid in old(state).pins && !SomeLastRelease(old(state), requests, cid))
        {
          PinExact(old(state), requests, cid);
        }
      }
    }
  }
}
