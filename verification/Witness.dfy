/** The quorum verdict over the witnesses' heads (verdict in deploy/lake_head.cljk). */
module Witness {
  datatype Vote = Vote(number: int, cid: string)

  datatype Refusal = NoHead | Unreachable | NoProof | BadProof

  /** One witness's checked answer. */
  datatype Answer = Head(vote: Vote) | Refused(reason: Refusal)

  datatype Verdict =
    | Verified(vote: Vote, witnesses: set<nat>)
    | Split(groups: seq<Vote>)
    | Absent
    | Unmeasured(proved: nat)

  function Supporters(results: seq<Answer>, v: Vote): set<nat> {
    set i: nat | i < |results| && results[i] == Head(v)
  }

  function Proving(results: seq<Answer>): set<nat> {
    set i: nat | i < |results| && results[i].Head?
  }

  function Headless(results: seq<Answer>): set<nat> {
    set i: nat | i < |results| && results[i] == Refused(NoHead)
  }

  /** The groups, in whatever order the map lists them: every voted head once. */
  ghost predicate Groups(results: seq<Answer>, groups: seq<Vote>) {
    && (forall v :: v in groups <==> Supporters(results, v) != {})
    && (forall i, j :: 0 <= i < j < |groups| ==> groups[i] != groups[j])
  }

  /** last of the groups sorted by size: the last of the largest. */
  function Largest(results: seq<Answer>, groups: seq<Vote>): (v: Vote)
    requires groups != []
    ensures v in groups
    ensures forall w :: w in groups ==> |Supporters(results, w)| <= |Supporters(results, v)|
  {
    if |groups| == 1 then groups[0]
    else
      var rest := Largest(results, groups[1..]);
      assert forall w :: w in groups ==> w == groups[0] || w in groups[1..];
      if |Supporters(results, groups[0])| <= |Supporters(results, rest)| then rest else groups[0]
  }

  function Decide(results: seq<Answer>, groups: seq<Vote>, minAgree: int): Verdict {
    if groups != [] && |Supporters(results, Largest(results, groups))| >= minAgree
    then Verified(Largest(results, groups), Supporters(results, Largest(results, groups)))
    else if |groups| > 1 then Split(groups)
    else if Proving(results) == {} && |Headless(results)| >= minAgree then Absent
    else Unmeasured(|Proving(results)|)
  }

  /** A head is verified exactly when enough witnesses prove one; then no smaller group is chosen. */
  lemma VerifiedExact(results: seq<Answer>, groups: seq<Vote>, minAgree: int)
    requires Groups(results, groups) && minAgree >= 1
    ensures Decide(results, groups, minAgree).Verified? <==> exists v :: |Supporters(results, v)| >= minAgree
    ensures var d := Decide(results, groups, minAgree);
            d.Verified? ==> d.witnesses == Supporters(results, d.vote) && |d.witnesses| >= minAgree
    ensures var d := Decide(results, groups, minAgree);
            && (d.Split? <==> !d.Verified? && exists v, w :: v != w && Supporters(results, v) != {} && Supporters(results, w) != {})
            && (d.Split? ==> d.groups == groups)
            && (d.Absent? <==>
                && (forall i :: 0 <= i < |results| ==> !results[i].Head?)
                && |set i: nat | i < |results| && results[i] == Refused(NoHead)| >= minAgree)
            && (d.Unmeasured? ==> d.proved == |Proving(results)| < minAgree)
  {
    var d := Decide(results, groups, minAgree);
    assert Headless(results) == set i: nat | i < |results| && results[i] == Refused(NoHead);
    assert Proving(results) == {} <==> forall i :: 0 <= i < |results| ==> !results[i].Head? by {
      assert forall i :: 0 <= i < |results| && results[i].Head? ==> i in Proving(results);
    }
    if v :| |Supporters(results, v)| >= minAgree {
      assert v in groups;
    }
    GroupsProve(results, groups);
    if |groups| > 1 {
      assert groups[0] in groups && groups[1] in groups;
      assert Supporters(results, groups[0]) != {} && Supporters(results, groups[1]) != {};
    }
  }

  /** A vote is in a group, and with one group everyone who proves a head supports it. */
  lemma GroupsProve(results: seq<Answer>, groups: seq<Vote>)
    requires Groups(results, groups)
    ensures groups == [] <==> Proving(results) == {}
    ensures |groups| == 1 ==> Proving(results) == Supporters(results, groups[0])
    ensures forall v, w :: v != w && Supporters(results, v) != {} && Supporters(results, w) != {} ==> |groups| > 1
  {
    forall i | i in Proving(results)
      ensures results[i].vote in groups && i in Supporters(results, results[i].vote)
    {
      assert i in Supporters(results, results[i].vote);
    }
    if groups != [] {
      assert groups[0] in groups;
      var i :| i in Supporters(results, groups[0]);
      assert i in Proving(results);
    }
    forall v, w | v != w && Supporters(results, v) != {} && Supporters(results, w) != {}
      ensures |groups| > 1
    {
      assert v in groups && w in groups;
    }
  }

  lemma {:induction false} IndicesBelow(n: nat, s: set<nat>)
    requires forall i :: i in s ==> i < n
    ensures |s| <= n
  {
    if n > 0 {
      IndicesBelow(n - 1, s - {n - 1});
    } else {
      assert s == {};
    }
  }

  /** Two quorums of more than half the witnesses share one. */
  lemma Overlap(n: nat, a: set<nat>, b: set<nat>) returns (i: nat)
    requires (forall k :: k in a ==> k < n) && (forall k :: k in b ==> k < n)
    requires |a| + |b| > n
    ensures i in a && i in b
  {
    if a * b == {} {
      assert |a + b| == |a| + |b|;
      IndicesBelow(n, a + b);
    }
    i :| i in a * b;
  }

  /** With agreement of more than half, whatever order the groups come in, the verified head is the same. */
  lemma VerifiedUnique(results: seq<Answer>, minAgree: int, v: Vote, w: Vote)
    requires 2 * minAgree > |results|
    requires |Supporters(results, v)| >= minAgree && |Supporters(results, w)| >= minAgree
    ensures v == w
  {
    var i := Overlap(|results|, Supporters(results, v), Supporters(results, w));
  }

  /** A witness never goes back and never names another CID for a number it named. */
  ghost predicate Forward(earlier: Vote, later: Vote) {
    earlier.number < later.number || earlier == later
  }

  /** Every witness that proves a head both times has gone forward. */
  ghost predicate WitnessesForward(earlier: seq<Answer>, later: seq<Answer>) {
    && |earlier| == |later|
    && forall i :: 0 <= i < |earlier| && earlier[i].Head? && later[i].Head? ==>
         Forward(earlier[i].vote, later[i].vote)
  }

  /** A later verified head is never lower, and never another CID at the same number. */
  lemma VerifiedForward(earlier: seq<Answer>, later: seq<Answer>, groups: seq<Vote>, groups': seq<Vote>, minAgree: int)
    requires WitnessesForward(earlier, later) && 2 * minAgree > |earlier|
    requires Groups(earlier, groups) && Groups(later, groups')
    requires Decide(earlier, groups, minAgree).Verified? && Decide(later, groups', minAgree).Verified?
    ensures Forward(Decide(earlier, groups, minAgree).vote, Decide(later, groups', minAgree).vote)
  {
    var v, w := Decide(earlier, groups, minAgree).vote, Decide(later, groups', minAgree).vote;
    var i := Overlap(|earlier|, Supporters(earlier, v), Supporters(later, w));
  }

  /** At half or below, two heads can both have the agreement, and the map's order decides. */
  lemma HalfIsNotEnough(n: nat, minAgree: nat, v: Vote, w: Vote) returns (results: seq<Answer>)
    requires 1 <= minAgree && 2 * minAgree <= n && v != w
    ensures |results| == n
    ensures |Supporters(results, v)| >= minAgree && |Supporters(results, w)| >= minAgree
  {
    results := seq(n, i => Head(if i < minAgree then v else w));
    assert Supporters(results, v) == Range(0, minAgree);
    assert Supporters(results, w) == Range(minAgree, n);
  }

  function Range(a: nat, b: nat): (s: set<nat>)
    requires a <= b
    ensures |s| == b - a && forall i :: i in s <==> a <= i < b
    decreases b - a
  {
    if a == b then {} else Range(a, b - 1) + {b - 1}
  }

  /** The deployed quorum: exactly one head can be verified, and verified heads only go forward. */
  lemma FiveOfSeven(earlier: seq<Answer>, later: seq<Answer>, groups: seq<Vote>, groups': seq<Vote>)
    requires |earlier| == 7 && WitnessesForward(earlier, later)
    requires Groups(earlier, groups) && Groups(later, groups')
    ensures Decide(earlier, groups, 5).Verified? <==> exists v :: |Supporters(earlier, v)| >= 5
    ensures forall v, w :: |Supporters(earlier, v)| >= 5 && |Supporters(earlier, w)| >= 5 ==> v == w
    ensures var d, d' := Decide(earlier, groups, 5), Decide(later, groups', 5);
            d.Verified? && d'.Verified? ==> Forward(d.vote, d'.vote)
  {
    VerifiedExact(earlier, groups, 5);
    forall v, w | |Supporters(earlier, v)| >= 5 && |Supporters(earlier, w)| >= 5
      ensures v == w
    {
      VerifiedUnique(earlier, 5, v, w);
    }
    if Decide(earlier, groups, 5).Verified? && Decide(later, groups', 5).Verified? {
      VerifiedForward(earlier, later, groups, groups', 5);
    }
  }
}
