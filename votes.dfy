/**
 * Governance vote options and the vote map: an amount per vote option,
 * always holding all five options.
 */
module Votes {
  import opened Decimal

  /** The five vote options, in the order of the governance enumeration. */
  datatype VoteOption = Empty | Yes | Abstain | No | NoWithVeto

  /** `allVoteOptions`: every option, the order in which a new vote map is filled. */
  const AllVoteOptions: seq<VoteOption> := [Empty, Yes, Abstain, No, NoWithVeto]

  lemma AllVoteOptionsComplete()
    ensures forall o: VoteOption :: o in AllVoteOptions
    ensures forall i, j :: 0 <= i < j < |AllVoteOptions| ==> AllVoteOptions[i] != AllVoteOptions[j]
  {
    forall o: VoteOption ensures o in AllVoteOptions {
      match o
      case Empty => assert AllVoteOptions[0] == o;
      case Yes => assert AllVoteOptions[1] == o;
      case Abstain => assert AllVoteOptions[2] == o;
      case No => assert AllVoteOptions[3] == o;
      case NoWithVeto => assert AllVoteOptions[4] == o;
    }
  }

  lemma EveryOptionIn(m: map<VoteOption, Dec>)
    requires Empty in m && Yes in m && Abstain in m && No in m && NoWithVeto in m
    ensures forall o :: o in m
  {
    forall o ensures o in m {
      match o
      case Empty =>
      case Yes =>
      case Abstain =>
      case No =>
      case NoWithVeto =>
    }
  }

  /** An amount per vote option with no option missing. */
  type Tally = m: map<VoteOption, Dec> | forall o :: o in m
    witness (EveryOptionIn(map[Empty := 0, Yes := 0, Abstain := 0, No := 0, NoWithVeto := 0]);
             map[Empty := 0, Yes := 0, Abstain := 0, No := 0, NoWithVeto := 0])

  /** The tally whose amount for each option `o` is `f(o)`. */
  function TallyOf(f: VoteOption -> Dec): (t: Tally)
    ensures forall o :: t[o] == f(o)
  {
    var m := map[Empty := f(Empty), Yes := f(Yes), Abstain := f(Abstain), No := f(No), NoWithVeto := f(NoWithVeto)];
    EveryOptionIn(m);
    m
  }

  const ZeroTally: Tally := TallyOf(o => 0)

  /** The sum of the five amounts of a tally. */
  function TallySum(t: Tally): Dec
  {
    t[Yes] + t[No] + t[NoWithVeto] + t[Abstain] + t[Empty]
  }

  /** The option-wise sum of two tallies. */
  function AddTally(t: Tally, u: Tally): (r: Tally)
    ensures forall o :: r[o] == t[o] + u[o]
    ensures TallySum(r) == TallySum(t) + TallySum(u)
  {
    TallyOf(o => t[o] + u[o])
  }

  /** `voteMap`: a vote map updated in place. */
  class VoteMap {
    var m: Tally

    /** `newVoteMap`: a map holding every option at zero. */
    constructor ()
      ensures m == ZeroTally
    {
      var t: map<VoteOption, Dec> := map[];
      for k := 0 to |AllVoteOptions|
        invariant forall o :: o in AllVoteOptions[..k] <==> o in t
        invariant forall o :: o in t ==> t[o] == 0
      {
        assert AllVoteOptions[..k + 1] == AllVoteOptions[..k] + [AllVoteOptions[k]];
        t := t[AllVoteOptions[k] := 0];
      }
      assert AllVoteOptions[..|AllVoteOptions|] == AllVoteOptions;
      AllVoteOptionsComplete();
      m := t;
    }

    /** `add`: raises the amount of option `v` by `d` and leaves the others alone. */
    method Add(v: VoteOption, d: Dec)
      modifies this
      ensures m[v] == old(m[v]) + d
      ensures forall o :: o != v ==> m[o] == old(m[o])
    {
      m := m[v := m[v] + d];
    }
  }
}
