/** The main function of tools/pkgvercmp.c behind its option parsing. */
module PkgVerCmp {
  import opened CNumber
  import opened VersionParse
  import opened VersionOrder
  import opened VersionLoops

  datatype Mode = MODE_CMP | MODE_MIN | MODE_MAX

  datatype Outcome = Unsupported(argument: nat) | Compared(result: VerResult) | Selected(index: nat)

  /** Among the first `n` versions, the earliest one that is at least every other. */
  predicate EarliestMax(versions: seq<string>, n: nat, i: nat)
    requires n <= |versions|
  {
    && i < n
    && (forall j :: 0 <= j < n ==> Compare(versions[j], versions[i]) in {LT, EQ})
    && (forall j :: 0 <= j < i ==> Compare(versions[j], versions[i]) == LT)
  }

  /** Among the first `n` versions, the earliest one that is at most every other. */
  predicate EarliestMin(versions: seq<string>, n: nat, i: nat)
    requires n <= |versions|
  {
    && i < n
    && (forall j :: 0 <= j < n ==> Compare(versions[j], versions[i]) in {GT, EQ})
    && (forall j :: 0 <= j < i ==> Compare(versions[j], versions[i]) == GT)
  }

  predicate Best(mode: Mode, versions: seq<string>, n: nat, i: nat)
    requires n <= |versions|
  {
    if mode == MODE_MAX then EarliestMax(versions, n, i) else EarliestMin(versions, n, i)
  }

  /** The comparison with the selected version that makes another one take its place. */
  predicate Beats(mode: Mode, res: VerResult)
  {
    (res == LT && mode == MODE_MIN) || (res == GT && mode == MODE_MAX)
  }

  /** No version behind the one at `i` and before `to` beats it. */
  predicate Unbeaten(mode: Mode, versions: seq<string>, i: nat, to: nat)
    requires i < |versions| && to <= |versions|
  {
    forall j :: i < j < to ==> !Beats(mode, Compare(versions[j], versions[i]))
  }

  /** The selections in the order in which they are made: the first version, then always the next one that beats the
      selected one; nothing up to `n` beats the last. For given versions there is one such sequence. */
  predicate Selections(mode: Mode, versions: seq<string>, n: nat, picks: seq<nat>)
    requires n <= |versions|
    decreases |picks|
  {
    && picks != []
    && var k := |picks| - 1;
       && picks[k] < n
       && Unbeaten(mode, versions, picks[k], n)
       && if k == 0 then picks[k] == 0 else
          && picks[k - 1] < picks[k] && Selections(mode, versions, picks[k], picks[..k])
          && Beats(mode, Compare(versions[picks[k]], versions[picks[k - 1]]))
  }

  /** A version that does not beat the selected one changes nothing; one that does is selected next. */
  lemma {:induction false} NextSelection(mode: Mode, versions: seq<string>, j: nat, picks: seq<nat>)
    requires j < |versions| && Selections(mode, versions, j, picks)
    ensures var i := picks[|picks| - 1];
            if Beats(mode, Compare(versions[j], versions[i])) then Selections(mode, versions, j + 1, picks + [j])
            else Selections(mode, versions, j + 1, picks)
  {
    hide Compare, Beats;
    assert (picks + [j])[..|picks|] == picks;
  }

  /** The selections before the last round of the loop, which the last version extends exactly if it beats them. */
  lemma {:induction false} PreviousSelection(mode: Mode, versions: seq<string>, n: nat, picks: seq<nat>)
    returns (before: seq<nat>)
    requires 1 < n <= |versions| && Selections(mode, versions, n, picks)
    ensures Selections(mode, versions, n - 1, before)
    ensures var i := before[|before| - 1];
            picks == if Beats(mode, Compare(versions[n - 1], versions[i])) then before + [n - 1] else before
  {
    hide Compare, Beats;
    var k := |picks| - 1;
    if picks[k] == n - 1 {
      before := picks[..k];
      assert picks == before + [n - 1];
    } else {
      before := picks;
    }
  }

  lemma {:induction false} OnlySelection(mode: Mode, versions: seq<string>, picks: seq<nat>)
    requires versions != [] && Selections(mode, versions, 1, picks)
    ensures picks == [0]
  {
    hide Compare, Beats;
    assert |picks| == 1;
  }

  /** The versions determine the selections. */
  lemma {:induction false} SelectionsUnique(mode: Mode, versions: seq<string>, n: nat, a: seq<nat>, b: seq<nat>)
    requires 0 < n <= |versions| && Selections(mode, versions, n, a) && Selections(mode, versions, n, b)
    ensures a == b
    decreases n
  {
    hide Compare, Beats;
    if n == 1 {
      OnlySelection(mode, versions, a);
      OnlySelection(mode, versions, b);
    } else {
      var a' := PreviousSelection(mode, versions, n, a);
      var b' := PreviousSelection(mode, versions, n, b);
      SelectionsUnique(mode, versions, n - 1, a', b');
    }
  }

  predicate AllRegular(versions: seq<string>) { forall j :: 0 <= j < |versions| ==> Regular(versions[j]) }

  /** What was at most (at least) the old selection is below (above) a strictly better one. */
  lemma {:induction false} Rebase(x: string, a: string, b: string)
    requires Regular(x) && Regular(a) && Regular(b)
    ensures Compare(b, a) == GT && Compare(x, a) in {LT, EQ} ==> Compare(x, b) == LT
    ensures Compare(b, a) == LT && Compare(x, a) in {GT, EQ} ==> Compare(x, b) == GT
    ensures Compare(b, a) != FAILED
  {
    CompareFlip(a, b);
    CompareFlip(x, a);
    CompareFlip(x, b);
    if Compare(a, b) == LT && Compare(x, a) in {LT, EQ} {
      CompareComposes(x, a, b);
    }
    if Compare(a, b) == GT && Compare(x, a) in {GT, EQ} {
      CompareComposes(b, a, x);
    }
  }

  lemma {:induction false} FirstSelection(mode: Mode, versions: seq<string>)
    requires mode != MODE_CMP && |versions| > 0 && Accepted(versions[0])
    ensures Selections(mode, versions, 1, [0]) && Best(mode, versions, 1, 0)
  {
    hide Compare;
    CompareSame(versions[0]);
  }

  /** One round of the loop: a strictly better version takes the place of the selected one. */
  lemma {:induction false} Extend(mode: Mode, versions: seq<string>, i: nat, j: nat)
    requires mode != MODE_CMP && i < j < |versions|
    requires AllRegular(versions) && Best(mode, versions, j, i)
    ensures var res := Compare(versions[j], versions[i]);
            Best(mode, versions, j + 1, if Beats(mode, res) then j else i)
  {
    hide Split, Accepted, Order, Compare, Regular;
    RegularSame(versions[j]);
    forall k | 0 <= k < j
      ensures Compare(versions[j], versions[i]) == GT && Compare(versions[k], versions[i]) in {LT, EQ}
              ==> Compare(versions[k], versions[j]) == LT
      ensures Compare(versions[j], versions[i]) == LT && Compare(versions[k], versions[i]) in {GT, EQ}
              ==> Compare(versions[k], versions[j]) == GT
    {
      Rebase(versions[k], versions[i], versions[j]);
    }
    Rebase(versions[i], versions[i], versions[j]);
  }

  /** The loop that keeps the index of the best version so far. */
  method Select(mode: Mode, versions: seq<CString>) returns (i: nat)
    requires mode != MODE_CMP && |versions| > 0
    requires forall j :: 0 <= j < |versions| ==> Accepted(versions[j])
    ensures i < |versions|
    ensures exists picks :: Selections(mode, versions, |versions|, picks) && i == picks[|picks| - 1]
    ensures AllRegular(versions) ==> Best(mode, versions, |versions|, i)
  {
    hide Compare, Accepted, Best, AllRegular, Selections;
    i := 0;
    FirstSelection(mode, versions);
    ghost var picks: seq<nat> := [0];
    var j := 1;
    while j < |versions|
      invariant i < j <= |versions|
      invariant picks != [] && i == picks[|picks| - 1] && Selections(mode, versions, j, picks)
      invariant AllRegular(versions) ==> Best(mode, versions, j, i)
    {
      var res := VersionCmp(versions[j], versions[i]);
      NextSelection(mode, versions, j, picks);
      if AllRegular(versions) {
        Extend(mode, versions, i, j);
      }
      if (res == LT && mode == MODE_MIN) || (res == GT && mode == MODE_MAX) {
        i, picks := j, picks + [j];
      }
      j := j + 1;
    }
  }

  lemma {:induction false} BestMeans(mode: Mode, versions: seq<string>, i: nat)
    requires mode != MODE_CMP && Best(mode, versions, |versions|, i)
    ensures i < |versions|
    ensures mode == MODE_MAX ==>
              && (forall j :: 0 <= j < |versions| ==> Compare(versions[j], versions[i]) in {LT, EQ})
              && (forall j :: 0 <= j < i ==> Compare(versions[j], versions[i]) == LT)
    ensures mode == MODE_MIN ==>
              && (forall j :: 0 <= j < |versions| ==> Compare(versions[j], versions[i]) in {GT, EQ})
              && (forall j :: 0 <= j < i ==> Compare(versions[j], versions[i]) == GT)
  {
    hide Compare;
  }

  method Run(mode: Mode, versions: seq<CString>) returns (out: Outcome)
    requires if mode == MODE_CMP then |versions| == 2 else |versions| > 0
    ensures out.Unsupported? <==> exists j :: 0 <= j < |versions| && !Accepted(versions[j])
    ensures out.Unsupported? ==> out.argument < |versions| && !Accepted(versions[out.argument])
    ensures !out.Unsupported? ==> (out.Compared? <==> mode == MODE_CMP)
    ensures out.Compared? ==> out.result == Compare(versions[0], versions[1]) != FAILED
    ensures out.Selected? ==> out.index < |versions|
    ensures out.Selected? ==>
              exists picks :: Selections(mode, versions, |versions|, picks) && out.index == picks[|picks| - 1]
    ensures out.Selected? && AllRegular(versions) && mode == MODE_MAX ==>
              && (forall j :: 0 <= j < |versions| ==> Compare(versions[j], versions[out.index]) in {LT, EQ})
              && (forall j :: 0 <= j < out.index ==> Compare(versions[j], versions[out.index]) == LT)
    ensures out.Selected? && AllRegular(versions) && mode == MODE_MIN ==>
              && (forall j :: 0 <= j < |versions| ==> Compare(versions[j], versions[out.index]) in {GT, EQ})
              && (forall j :: 0 <= j < out.index ==> Compare(versions[j], versions[out.index]) == GT)
  {
    hide Compare, Split, AllRegular, Best, Selections;
    var j := 0;
    while j < |versions|
      invariant 0 <= j <= |versions|
      invariant forall k :: 0 <= k < j ==> Accepted(versions[k])
    {
      var ok, _, _, _, _, _ := ParseCoarse(versions[j]);
      if !ok {
        return Unsupported(j);
      }
      j := j + 1;
    }
    if mode == MODE_CMP {
      var r := VersionCmp(versions[0], versions[1]);
      CompareFlip(versions[0], versions[1]);
      return Compared(r);
    }
    var i := Select(mode, versions);
    if AllRegular(versions) {
      BestMeans(mode, versions, i);
    }
    return Selected(i);
  }
}
