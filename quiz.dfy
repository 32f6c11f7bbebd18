/**
 * The quiz round of MainActivity, as pure logic: the draws that the activity
 * takes from `random()` are inputs, the four button texts are a sequence.
 *
 * A round picks a target description (`numberOfQuestion`) and a correct
 * button (`numberOfRightQuestion`); the correct button shows the target, and
 * each other button shows the description of the first later draw whose index
 * differs from the target's. The duplicate check on `tempList` in the source
 * never rejects anything, because the list is new for every button, so the
 * texts of wrong answers may repeat and may even equal the target's text.
 */
module Quiz {
  import opened Wrappers

  /** The activity has four answer buttons, button1 to button4. */
  const ButtonCount: nat := 4

  /** The string resources the round logic reads. */
  datatype Strings = Strings(rightAnswer: string, incorrectAnswer: string, failedData: string, https: string)

  /**
   * Every element of s is below n: of the draws, that each draw of
   * `descriptions.indices.random()` indexes a list of n descriptions; of the
   * picks, that each picked index does.
   */
  predicate AllBelow(s: seq<nat>, n: nat) {
    forall k :: 0 <= k < |s| ==> s[k] < n
  }

  /**
   * The position, at or after `from`, of the first draw the rejection loop
   * accepts: the first draw whose index is not the target's.
   */
  function FirstOther(draws: seq<nat>, target: nat, from: nat): (r: Option<nat>)
    requires from <= |draws|
    decreases |draws| - from
    ensures r.Some? ==> from <= r.value < |draws| && draws[r.value] != target
    ensures r.Some? ==> forall j :: from <= j < r.value ==> draws[j] == target
    ensures r.None? ==> forall j :: from <= j < |draws| ==> draws[j] == target
  {
    if from == |draws| then None
    else if draws[from] != target then Some(from)
    else FirstOther(draws, target, from + 1)
  }

  /** How many draws at or after `from` the rejection loop would accept. */
  function CountOther(draws: seq<nat>, target: nat, from: nat): (c: nat)
    requires from <= |draws|
    decreases |draws| - from
    ensures c <= |draws| - from
  {
    if from == |draws| then 0
    else (if draws[from] != target then 1 else 0) + CountOther(draws, target, from + 1)
  }

  /** How many of the buttons `slot` to 3 are wrong-answer buttons. */
  function DistractorSlots(right: nat, slot: nat): (c: nat)
    requires slot <= ButtonCount
    decreases ButtonCount - slot
    ensures c <= ButtonCount - slot
  {
    if slot == ButtonCount then 0
    else (if slot == right then 0 else 1) + DistractorSlots(right, slot + 1)
  }

  /**
   * The description index each button from `slot` on receives, in button
   * order, when the draws from position `from` on are consumed. The sequence
   * stops short of the last button when a wrong-answer button finds no
   * acceptable draw left: the source's loop would go on drawing there.
   */
  function PickSlots(target: nat, right: nat, draws: seq<nat>, slot: nat, from: nat): (picks: seq<nat>)
    requires slot <= ButtonCount && from <= |draws|
    decreases ButtonCount - slot
    ensures |picks| <= ButtonCount - slot
  {
    if slot == ButtonCount then []
    else if slot == right then [target] + PickSlots(target, right, draws, slot + 1, from)
    else match FirstOther(draws, target, from)
      case None => []
      case Some(p) => [draws[p]] + PickSlots(target, right, draws, slot + 1, p + 1)
  }

  /** With the target and every draw below n, so is every pick. */
  lemma {:induction false} PicksBelow(target: nat, right: nat, draws: seq<nat>, slot: nat, from: nat, n: nat)
    requires slot <= ButtonCount && from <= |draws| && target < n && AllBelow(draws, n)
    decreases ButtonCount - slot
    ensures AllBelow(PickSlots(target, right, draws, slot, from), n)
  {
    if slot < ButtonCount {
      var picks := PickSlots(target, right, draws, slot, from);
      if slot == right {
        var rest := PickSlots(target, right, draws, slot + 1, from);
        PicksBelow(target, right, draws, slot + 1, from, n);
        assert picks == [target] + rest;
      } else if FirstOther(draws, target, from).Some? {
        var p := FirstOther(draws, target, from).value;
        var rest := PickSlots(target, right, draws, slot + 1, p + 1);
        PicksBelow(target, right, draws, slot + 1, p + 1, n);
        PickSlotsAccepted(target, right, draws, slot, from, p);
      }
    }
  }

  /** A wrong-answer button takes the first acceptable draw and the next button continues after it. */
  lemma PickSlotsAccepted(target: nat, right: nat, draws: seq<nat>, slot: nat, from: nat, p: nat)
    requires slot < ButtonCount && slot != right && from <= |draws| && FirstOther(draws, target, from) == Some(p)
    ensures PickSlots(target, right, draws, slot, from) == [draws[p]] + PickSlots(target, right, draws, slot + 1, p + 1)
  {
  }

  /** The button texts for a sequence of description indices. */
  function Texts(descriptions: seq<string>, picks: seq<nat>): (texts: seq<string>)
    requires AllBelow(picks, |descriptions|)
  {
    seq(|picks|, k requires 0 <= k < |picks| => descriptions[picks[k]])
  }

  /**
   * The inner `while (true)` loop for one wrong-answer button, over the supplied
   * draws from position `from` on. `tempList` is created empty for each button
   * and the loop stops as soon as it adds to it, so its test never rejects.
   */
  method DrawWrongAnswer(descriptions: seq<string>, target: nat, draws: seq<nat>, from: nat)
    returns (accepted: bool, at: nat)
    requires target < |descriptions| && from <= |draws| && AllBelow(draws, |descriptions|)
    ensures FirstOther(draws, target, from) == if accepted then Some(at) else None
    ensures accepted ==> at < |draws| && draws[at] != target
  {
    var tempList: seq<string> := [];
    var i := from;
    accepted, at := false, |draws|;
    while i < |draws|
      invariant from <= i <= |draws|
      invariant tempList == []
      invariant forall j :: from <= j < i ==> draws[j] == target
      invariant FirstOther(draws, target, from) == FirstOther(draws, target, i)
    {
      var wrongAnswer := draws[i];
      if wrongAnswer != target && descriptions[wrongAnswer] !in tempList {
        tempList := tempList + [descriptions[wrongAnswer]];
        accepted, at := true, i;
        break;
      }
      i := i + 1;
    }
  }

  /** The message `onClickAnswer` shows; None when `descriptions[numberOfQuestion]` is out of range. */
  function AnswerMessage(tag: int, right: nat, target: nat, descriptions: seq<string>, strings: Strings): (m: Option<string>)
    ensures tag == right ==> m == Some(strings.rightAnswer)
    ensures tag != right ==> (m.Some? <==> target < |descriptions|)
    ensures tag != right && target < |descriptions| ==> m == Some(strings.incorrectAnswer + " " + descriptions[target])
  {
    if tag == right then Some(strings.rightAnswer)
    else if target < |descriptions| then Some(strings.incorrectAnswer + " " + descriptions[target])
    else None
  }

  /** How `playGame` ends for one round. */
  datatype RoundOutcome =
    | ImageIndexOutOfRange  // `urlsImg[numberOfQuestion]` throws
    | ImageMissing          // `downloadImage` gave no bitmap: the buttons keep their texts
    | DescriptionsEmpty     // the first button throws before any text is set
    | Stalled(shown: nat)   // a wrong-answer button found no acceptable draw; buttons before it were set
    | Presented             // all four buttons were set

  /** The outcome of a round whose question is `target` and correct button `right`. */
  function Outcome(descriptions: seq<string>, urlsImg: seq<string>, target: nat, right: nat,
                   imageLoaded: bool, draws: seq<nat>): (o: RoundOutcome)
    requires right < ButtonCount && (|descriptions| > 0 ==> target < |descriptions|)
    ensures o == ImageIndexOutOfRange <==> target >= |urlsImg|
    ensures (o.Presented? || o.Stalled?) ==> target < |descriptions|
    ensures o == Presented ==> |PickSlots(target, right, draws, 0, 0)| == ButtonCount
    ensures o.Stalled? ==> o.shown < ButtonCount && o.shown == |PickSlots(target, right, draws, 0, 0)|
    ensures target < |urlsImg| ==> (o == ImageMissing <==> !imageLoaded)
    ensures target < |urlsImg| && imageLoaded ==> (o == DescriptionsEmpty <==> |descriptions| == 0)
    ensures target < |urlsImg| && imageLoaded && |descriptions| > 0 ==>
      (o == Presented <==> |PickSlots(target, right, draws, 0, 0)| == ButtonCount)
  {
    if target >= |urlsImg| then ImageIndexOutOfRange
    else if !imageLoaded then ImageMissing
    else if |descriptions| == 0 then DescriptionsEmpty
    else
      var n := |PickSlots(target, right, draws, 0, 0)|;
      if n == ButtonCount then Presented else Stalled(n)
  }

  /**
   * The button texts after the buttons were filled: the picks' descriptions
   * on the buttons that were set, the texts from before on the rest.
   */
  function FilledButtons(descriptions: seq<string>, target: nat, right: nat, draws: seq<nat>,
                         before: seq<string>): (after: seq<string>)
    requires |before| == ButtonCount && target < |descriptions| && AllBelow(draws, |descriptions|)
    ensures |after| == ButtonCount
  {
    var picks := PickSlots(target, right, draws, 0, 0);
    PicksBelow(target, right, draws, 0, 0, |descriptions|);
    Texts(descriptions, picks) + before[|picks|..]
  }

  /** Texts that agree with `FilledButtons` button by button are `FilledButtons`. */
  lemma FilledButtonsAre(descriptions: seq<string>, target: nat, right: nat, draws: seq<nat>,
                         before: seq<string>, texts: seq<string>)
    requires |before| == ButtonCount && target < |descriptions| && AllBelow(draws, |descriptions|)
    requires |texts| == ButtonCount
    requires var picks := PickSlots(target, right, draws, 0, 0);
      AllBelow(picks, |descriptions|) &&
      (forall i :: 0 <= i < |picks| ==> texts[i] == descriptions[picks[i]]) &&
      (forall i :: |picks| <= i < ButtonCount ==> texts[i] == before[i])
    ensures texts == FilledButtons(descriptions, target, right, draws, before)
  {
  }

  /** The button texts after a round with outcome `o`, given the texts before it. */
  function ButtonsAfter(o: RoundOutcome, descriptions: seq<string>, target: nat, right: nat,
                        draws: seq<nat>, before: seq<string>): (after: seq<string>)
    requires right < ButtonCount && |before| == ButtonCount
    requires (o.Presented? || o.Stalled?) ==> target < |descriptions| && AllBelow(draws, |descriptions|)
    ensures |after| == ButtonCount
  {
    if o.Presented? || o.Stalled? then FilledButtons(descriptions, target, right, draws, before) else before
  }
}
