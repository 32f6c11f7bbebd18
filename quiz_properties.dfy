/**
 * What the round logic of MainActivity guarantees, and what it does not:
 * when the rejection loop can finish, that wrong answers are excluded by
 * index and not by text, and that the answer check goes by button position.
 */
module QuizProperties {
  import opened Wrappers
  import opened Quiz

  /**
   * Every button from `slot` on that `PickSlots` fills: the correct one
   * with the target, each other one with an accepted draw, which is a later
   * draw whose index is not the target's. The exclusion is by index only.
   */
  lemma {:induction false} PickSlotsShape(target: nat, right: nat, draws: seq<nat>, slot: nat, from: nat)
    requires slot <= ButtonCount && from <= |draws|
    decreases ButtonCount - slot
    ensures var picks := PickSlots(target, right, draws, slot, from);
      (forall k :: 0 <= k < |picks| && slot + k == right ==> picks[k] == target) &&
      (forall k :: 0 <= k < |picks| && slot + k != right ==>
         picks[k] != target && exists j :: from <= j < |draws| && draws[j] == picks[k])
  {
    if slot < ButtonCount {
      var picks := PickSlots(target, right, draws, slot, from);
      if slot == right {
        PickSlotsShape(target, right, draws, slot + 1, from);
        assert picks == [target] + PickSlots(target, right, draws, slot + 1, from);
      } else {
        match FirstOther(draws, target, from)
        case None =>
        case Some(p) =>
          PickSlotsShape(target, right, draws, slot + 1, p + 1);
          var rest := PickSlots(target, right, draws, slot + 1, p + 1);
          PickSlotsAccepted(target, right, draws, slot, from, p);
          forall k | 0 <= k < |picks| && slot + k != right
            ensures picks[k] != target && exists j :: from <= j < |draws| && draws[j] == picks[k]
          {
            if k == 0 {
              assert draws[p] == picks[k];
            } else {
              assert picks[k] == rest[k - 1];
            }
          }
      }
    }
  }

  /** Accepting the first acceptable draw uses up exactly one of them. */
  lemma {:induction false} CountOtherAtFirst(draws: seq<nat>, target: nat, from: nat)
    requires from <= |draws|
    decreases |draws| - from
    ensures FirstOther(draws, target, from).None? ==> CountOther(draws, target, from) == 0
    ensures FirstOther(draws, target, from).Some? ==>
      CountOther(draws, target, from) == 1 + CountOther(draws, target, FirstOther(draws, target, from).value + 1)
  {
    if from < |draws| && draws[from] == target {
      CountOtherAtFirst(draws, target, from + 1);
    }
  }

  /**
   * The buttons from `slot` on are all filled exactly when the draws contain
   * at least as many acceptable draws as there are wrong-answer buttons left.
   */
  lemma {:induction false} FillCompletesIff(target: nat, right: nat, draws: seq<nat>, slot: nat, from: nat)
    requires slot <= ButtonCount && from <= |draws|
    decreases ButtonCount - slot
    ensures |PickSlots(target, right, draws, slot, from)| == ButtonCount - slot
        <==> CountOther(draws, target, from) >= DistractorSlots(right, slot)
  {
    if slot < ButtonCount {
      CountOtherAtFirst(draws, target, from);
      assert DistractorSlots(right, slot) == (if slot == right then 0 else 1) + DistractorSlots(right, slot + 1);
      if slot == right {
        assert |PickSlots(target, right, draws, slot, from)| == 1 + |PickSlots(target, right, draws, slot + 1, from)|;
        FillCompletesIff(target, right, draws, slot + 1, from);
      } else {
        match FirstOther(draws, target, from)
        case None =>
          assert PickSlots(target, right, draws, slot, from) == [];
        case Some(p) =>
          PickSlotsAccepted(target, right, draws, slot, from, p);
          FillCompletesIff(target, right, draws, slot + 1, p + 1);
      }
    }
  }

  /**
   * With no acceptable draw left, only the correct button can still be set,
   * and only when it is the next one; the wrong-answer button after it stalls.
   */
  lemma {:induction false} NoAcceptableDrawStalls(target: nat, right: nat, draws: seq<nat>, slot: nat, from: nat)
    requires slot < ButtonCount && from <= |draws|
    requires CountOther(draws, target, from) == 0
    decreases ButtonCount - slot
    ensures |PickSlots(target, right, draws, slot, from)| == if slot == right then 1 else 0
  {
    CountOtherAtFirst(draws, target, from);
    if slot == right && slot + 1 < ButtonCount {
      NoAcceptableDrawStalls(target, right, draws, slot + 1, from);
    }
  }

  /**
   * With a single description every draw is the target's index, so whatever
   * the draws, the round stalls at the first wrong-answer button: the
   * source's `while (true)` loop never ends.
   */
  lemma OneDescriptionNeverCompletes(descriptions: seq<string>, urlsImg: seq<string>, right: nat, draws: seq<nat>)
    requires |descriptions| == 1 && |urlsImg| >= 1 && right < ButtonCount && AllBelow(draws, 1)
    ensures |PickSlots(0, right, draws, 0, 0)| == if right == 0 then 1 else 0
    ensures Outcome(descriptions, urlsImg, 0, right, true, draws) == Stalled(if right == 0 then 1 else 0)
  {
    CountOtherAtFirst(draws, 0, 0);
    NoAcceptableDrawStalls(0, right, draws, 0, 0);
  }

  /**
   * When every remaining draw is the same non-target index d and there are
   * enough of them, every wrong-answer button receives d.
   */
  lemma {:induction false} ConstantDraws(target: nat, right: nat, d: nat, draws: seq<nat>, slot: nat, from: nat)
    requires slot <= ButtonCount && from <= |draws| && d != target
    requires forall j :: from <= j < |draws| ==> draws[j] == d
    requires |draws| - from >= DistractorSlots(right, slot)
    decreases ButtonCount - slot
    ensures PickSlots(target, right, draws, slot, from)
         == seq(ButtonCount - slot, k => if slot + k == right then target else d)
  {
    var want := seq(ButtonCount - slot, k => if slot + k == right then target else d);
    if slot < ButtonCount {
      var next := seq(ButtonCount - (slot + 1), k => if slot + 1 + k == right then target else d);
      assert want == [want[0]] + next;
      if slot == right {
        ConstantDraws(target, right, d, draws, slot + 1, from);
      } else {
        assert FirstOther(draws, target, from) == Some(from);
        ConstantDraws(target, right, d, draws, slot + 1, from + 1);
      }
    }
  }

  /**
   * Wrong answers may repeat: three draws of the same non-target index fill
   * all three wrong-answer buttons with that one description.
   */
  lemma WrongAnswersMayRepeat(target: nat, right: nat, d: nat)
    requires right < ButtonCount && d != target
    ensures PickSlots(target, right, [d, d, d], 0, 0) == seq(ButtonCount, k => if k == right then target else d)
  {
    assert DistractorSlots(right, 0) == 3;
    ConstantDraws(target, right, d, [d, d, d], 0, 0);
  }

  /**
   * Some draws fill all four buttons exactly when there are at least two
   * descriptions to draw from.
   */
  lemma CanCompleteIff(n: nat, target: nat, right: nat)
    requires 1 <= n && target < n && right < ButtonCount
    ensures (exists draws :: AllBelow(draws, n) && |PickSlots(target, right, draws, 0, 0)| == ButtonCount) <==> n >= 2
  {
    if n >= 2 {
      var d := if target == 0 then 1 else 0;
      WrongAnswersMayRepeat(target, right, d);
      assert AllBelow([d, d, d], n);
    } else {
      forall draws | AllBelow(draws, n)
        ensures |PickSlots(target, right, draws, 0, 0)| < ButtonCount
      {
        OneDescriptionNeverCompletes(["only"], ["url"], right, draws);
      }
    }
  }

  /**
   * The exclusion is by index: when another entry has the same text as the
   * target, all four buttons may show that text, and pressing any button but
   * the correct one is still answered as incorrect.
   */
  lemma TargetTextMayRepeat(descriptions: seq<string>, target: nat, right: nat, d: nat, tag: int, strings: Strings)
    requires target < |descriptions| && d < |descriptions| && d != target && descriptions[d] == descriptions[target]
    requires right < ButtonCount && 0 <= tag < ButtonCount && tag != right
    ensures var picks := PickSlots(target, right, [d, d, d], 0, 0);
      AllBelow([d, d, d], |descriptions|) && |picks| == ButtonCount &&
      Texts(descriptions, picks) == seq(ButtonCount, _ => descriptions[target]) &&
      AnswerMessage(tag, right, target, descriptions, strings) == Some(strings.incorrectAnswer + " " + descriptions[target])
  {
    WrongAnswersMayRepeat(target, right, d);
  }

  /**
   * After a completed round, the correct button shows the target and each
   * other button shows the description of an accepted draw, one whose index
   * is not the target's.
   */
  lemma PresentedButtons(descriptions: seq<string>, urlsImg: seq<string>, target: nat, right: nat,
                         draws: seq<nat>, before: seq<string>)
    requires target < |descriptions| && right < ButtonCount && AllBelow(draws, |descriptions|) && |before| == ButtonCount
    requires Outcome(descriptions, urlsImg, target, right, true, draws) == Presented
    ensures var after := ButtonsAfter(Presented, descriptions, target, right, draws, before);
      after[right] == descriptions[target] &&
      forall i :: 0 <= i < ButtonCount && i != right ==>
        exists j :: 0 <= j < |draws| && draws[j] != target && after[i] == descriptions[draws[j]]
  {
    var picks := PickSlots(target, right, draws, 0, 0);
    PickSlotsShape(target, right, draws, 0, 0);
    var after := ButtonsAfter(Presented, descriptions, target, right, draws, before);
    forall i | 0 <= i < ButtonCount && i != right
      ensures exists j :: 0 <= j < |draws| && draws[j] != target && after[i] == descriptions[draws[j]]
    {
      var j :| 0 <= j < |draws| && draws[j] == picks[i];
      assert after[i] == descriptions[draws[j]];
    }
  }

  /**
   * Pressing a button after a completed round: the correct button gives the
   * right-answer message, any other gives the incorrect message naming the
   * text shown on the correct button.
   */
  lemma AnswerNamesShownTarget(descriptions: seq<string>, target: nat, right: nat, draws: seq<nat>,
                               tag: int, strings: Strings)
    requires target < |descriptions| && right < ButtonCount && AllBelow(draws, |descriptions|)
    requires |PickSlots(target, right, draws, 0, 0)| == ButtonCount
    ensures var texts := Texts(descriptions, PickSlots(target, right, draws, 0, 0));
      AnswerMessage(tag, right, target, descriptions, strings)
        == if tag == right then Some(strings.rightAnswer)
           else Some(strings.incorrectAnswer + " " + texts[right])
  {
    PickSlotsShape(target, right, draws, 0, 0);
  }
}
