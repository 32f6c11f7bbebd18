/**
 * The activity's round state: the two lists `createPattern` builds, the
 * question and correct-button indices `generateQuestion` picks, the texts of
 * the four answer buttons and the answer toast. Each method changes these
 * fields the way the corresponding Kotlin function does; the random draws,
 * the captures of the page's patterns and whether the image download gave a
 * bitmap are parameters.
 */
module Activity {
  import opened Wrappers
  import opened Quiz
  import Extraction

  /**
   * What one round takes from outside: the draw for `numberOfQuestion`, the
   * draw for `numberOfRightQuestion`, whether `downloadImage` returned a
   * bitmap, and the successive draws of the wrong-answer loop.
   */
  datatype RoundInputs = RoundInputs(questionDraw: nat, slotDraw: nat, imageLoaded: bool, draws: seq<nat>)

  /** The draws are what `indices.random()` can return for n descriptions and four buttons. */
  predicate Fits(inputs: RoundInputs, n: nat) {
    inputs.slotDraw < ButtonCount && (n > 0 ==> inputs.questionDraw < n) && AllBelow(inputs.draws, n)
  }

  /** How pressing a button ends. */
  datatype Click =
    | Answered(round: RoundOutcome)  // the toast was replaced and a new round was played
    | MessageIndexOutOfRange         // `descriptions[numberOfQuestion]` threw while building the message

  class MainActivity {
    const strings: Strings
    /** The texts of button1 to button4. */
    const buttonTexts: array<string>
    var descriptions: seq<string>
    var urlsImg: seq<string>
    var numberOfQuestion: nat
    var numberOfRightQuestion: nat
    /** The message of the last answer toast made, if any. */
    var toast: Option<string>

    ghost predicate Valid()
      reads this
    {
      buttonTexts.Length == ButtonCount && numberOfRightQuestion < ButtonCount
    }

    /**
     * The state after one `playGame`, from the question indices and the
     * button texts before it: `generateQuestion` either keeps both indices
     * and reports the failure (no descriptions) or takes both draws; the
     * buttons then change as the round's outcome says.
     */
    ghost predicate PlayedRound(question0: nat, right0: nat, before: seq<string>, inputs: RoundInputs,
                                notice: Option<string>, outcome: RoundOutcome)
      requires Valid() && Fits(inputs, |descriptions|) && |before| == ButtonCount
      reads this, buttonTexts
    {
      (if |descriptions| == 0 then
         numberOfQuestion == question0 && numberOfRightQuestion == right0 && notice == Some(strings.failedData)
       else
         numberOfQuestion == inputs.questionDraw && numberOfRightQuestion == inputs.slotDraw && notice == None) &&
      outcome == Outcome(descriptions, urlsImg, numberOfQuestion, numberOfRightQuestion, inputs.imageLoaded, inputs.draws) &&
      buttonTexts[..] == ButtonsAfter(outcome, descriptions, numberOfQuestion, numberOfRightQuestion, inputs.draws, before)
    }

    /** The field initialisers together with `start`'s reset of the lists. */
    constructor (strings: Strings)
      ensures Valid() && fresh(buttonTexts)
      ensures this.strings == strings && descriptions == [] && urlsImg == []
      ensures numberOfQuestion == 0 && numberOfRightQuestion == 0 && toast == None
      ensures buttonTexts[..] == seq(ButtonCount, _ => "")
    {
      this.strings := strings;
      buttonTexts := new string[ButtonCount](_ => "");
      descriptions, urlsImg := [], [];
      numberOfQuestion, numberOfRightQuestion := 0, 0;
      toast := None;
    }

    /** `createPattern`, given the captures of the text and the image patterns. */
    method CreatePattern(textCaptures: seq<string>, imageCaptures: seq<string>)
      modifies this`descriptions, this`urlsImg
      ensures descriptions == textCaptures
      ensures urlsImg == Extraction.ImageUrls(strings.https, imageCaptures)
    {
      descriptions := textCaptures;
      urlsImg := Extraction.ImageUrls(strings.https, imageCaptures);
    }

    /**
     * `generateQuestion`: with no descriptions the first `random()` throws
     * before either field is assigned and the failure is reported.
     */
    method GenerateQuestion(questionDraw: nat, slotDraw: nat) returns (notice: Option<string>)
      requires Valid() && slotDraw < ButtonCount && (|descriptions| > 0 ==> questionDraw < |descriptions|)
      modifies this`numberOfQuestion, this`numberOfRightQuestion
      ensures Valid()
      ensures |descriptions| == 0 ==>
        numberOfQuestion == old(numberOfQuestion) && numberOfRightQuestion == old(numberOfRightQuestion)
        && notice == Some(strings.failedData)
      ensures |descriptions| > 0 ==> numberOfQuestion == questionDraw && numberOfRightQuestion == slotDraw && notice == None
      ensures |descriptions| > 0 ==> numberOfQuestion < |descriptions| && numberOfRightQuestion < ButtonCount
    {
      if |descriptions| == 0 {
        notice := Some(strings.failedData);
      } else {
        numberOfQuestion := questionDraw;
        numberOfRightQuestion := slotDraw;
        notice := None;
      }
    }

    /**
     * The body of the `forEachIndexed` loop for button `index`, with the draws
     * from position `cursor` on: `isSet` is false when the rejection loop found
     * no acceptable draw there, and then the button keeps its text.
     */
    method FillButton(index: nat, draws: seq<nat>, cursor: nat) returns (isSet: bool, next: nat)
      requires Valid() && index < ButtonCount && cursor <= |draws|
      requires numberOfQuestion < |descriptions| && AllBelow(draws, |descriptions|)
      modifies buttonTexts
      ensures forall i :: 0 <= i < ButtonCount && (i != index || !isSet) ==> buttonTexts[i] == old(buttonTexts[i])
      ensures var rest := PickSlots(numberOfQuestion, numberOfRightQuestion, draws, index, cursor);
        if isSet then
          next <= |draws| && |rest| > 0 && rest[0] < |descriptions| && buttonTexts[index] == descriptions[rest[0]]
          && rest[1..] == PickSlots(numberOfQuestion, numberOfRightQuestion, draws, index + 1, next)
        else
          rest == []
    {
      var buttonText: string;
      if index == numberOfRightQuestion {
        buttonText := descriptions[numberOfQuestion];
        next := cursor;
      } else {
        var accepted, at := DrawWrongAnswer(descriptions, numberOfQuestion, draws, cursor);
        if !accepted {
          return false, cursor;
        }
        PickSlotsAccepted(numberOfQuestion, numberOfRightQuestion, draws, index, cursor, at);
        buttonText := descriptions[draws[at]];
        next := at + 1;
      }
      buttonTexts[index] := buttonText;
      isSet := true;
    }

    /**
     * The `forEachIndexed` loop of `playGame`: the correct button gets the
     * target description, every other one the description of the draw its
     * rejection loop accepts. It returns how many buttons were set; fewer
     * than four means a rejection loop ran out of draws.
     */
    method FillSlots(draws: seq<nat>) returns (shown: nat)
      requires Valid() && numberOfQuestion < |descriptions| && AllBelow(draws, |descriptions|)
      modifies buttonTexts
      ensures shown == |PickSlots(numberOfQuestion, numberOfRightQuestion, draws, 0, 0)|
      ensures buttonTexts[..] == FilledButtons(descriptions, numberOfQuestion, numberOfRightQuestion, draws, old(buttonTexts[..]))
    {
      ghost var q, r, descs, before := numberOfQuestion, numberOfRightQuestion, descriptions, buttonTexts[..];
      ghost var all := PickSlots(q, r, draws, 0, 0);
      PicksBelow(q, r, draws, 0, 0, |descs|);
      var cursor: nat := 0;
      var index: nat := 0;
      while index < ButtonCount
        invariant index <= ButtonCount && cursor <= |draws| && index <= |all|
        invariant all[index..] == PickSlots(q, r, draws, index, cursor)
        invariant forall i :: 0 <= i < index ==> buttonTexts[i] == descs[all[i]]
        invariant forall i :: index <= i < ButtonCount ==> buttonTexts[i] == before[i]
      {
        var isSet, next := FillButton(index, draws, cursor);
        if !isSet {
          break;
        }
        assert all[index + 1..] == all[index..][1..];
        cursor := next;
        index := index + 1;
      }
      FilledButtonsAre(descs, q, r, draws, before, buttonTexts[..]);
      return index;
    }

    /**
     * `playGame`: a new question, then the image lookup by the question index,
     * then, if a bitmap came back, the buttons.
     */
    method PlayGame(inputs: RoundInputs) returns (notice: Option<string>, outcome: RoundOutcome)
      requires Valid() && Fits(inputs, |descriptions|)
      modifies this`numberOfQuestion, this`numberOfRightQuestion, buttonTexts
      ensures Valid()
      ensures descriptions == old(descriptions) && urlsImg == old(urlsImg) && toast == old(toast)
      ensures PlayedRound(old(numberOfQuestion), old(numberOfRightQuestion), old(buttonTexts[..]), inputs, notice, outcome)
    {
      notice := GenerateQuestion(inputs.questionDraw, inputs.slotDraw);
      if numberOfQuestion >= |urlsImg| {
        outcome := ImageIndexOutOfRange;
      } else if !inputs.imageLoaded {
        outcome := ImageMissing;
      } else if |descriptions| == 0 {
        outcome := DescriptionsEmpty;
      } else {
        var shown := FillSlots(inputs.draws);
        outcome := if shown == ButtonCount then Presented else Stalled(shown);
      }
    }

    /** `getContent` after the page text is downloaded: build the lists, then play a round. */
    method LoadContent(textCaptures: seq<string>, imageCaptures: seq<string>, inputs: RoundInputs)
      returns (notice: Option<string>, outcome: RoundOutcome)
      requires Valid() && Fits(inputs, |textCaptures|)
      modifies this`descriptions, this`urlsImg, this`numberOfQuestion, this`numberOfRightQuestion, buttonTexts
      ensures Valid()
      ensures descriptions == textCaptures && urlsImg == Extraction.ImageUrls(strings.https, imageCaptures)
      ensures toast == old(toast)
      ensures PlayedRound(old(numberOfQuestion), old(numberOfRightQuestion), old(buttonTexts[..]), inputs, notice, outcome)
    {
      CreatePattern(textCaptures, imageCaptures);
      notice, outcome := PlayGame(inputs);
    }

    /**
     * `onClickAnswer` for the button whose tag is `tag`: the toast is replaced
     * by the right-answer message or by the incorrect message with the target
     * description, and a new round is played.
     */
    method OnClickAnswer(tag: int, inputs: RoundInputs) returns (click: Click, notice: Option<string>)
      requires Valid() && Fits(inputs, |descriptions|)
      modifies this`toast, this`numberOfQuestion, this`numberOfRightQuestion, buttonTexts
      ensures Valid()
      ensures descriptions == old(descriptions) && urlsImg == old(urlsImg)
      ensures var message := AnswerMessage(tag, old(numberOfRightQuestion), old(numberOfQuestion), descriptions, strings);
        if message.None? then
          click == MessageIndexOutOfRange && notice == None && toast == old(toast)
          && numberOfQuestion == old(numberOfQuestion) && numberOfRightQuestion == old(numberOfRightQuestion)
          && buttonTexts[..] == old(buttonTexts[..])
        else
          toast == Some(message.value) && click.Answered?
          && PlayedRound(old(numberOfQuestion), old(numberOfRightQuestion), old(buttonTexts[..]), inputs, notice, click.round)
    {
      var message := AnswerMessage(tag, numberOfRightQuestion, numberOfQuestion, descriptions, strings);
      if message.None? {
        return MessageIndexOutOfRange, None;
      }
      toast := Some(message.value);
      var outcome;
      notice, outcome := PlayGame(inputs);
      click := Answered(outcome);
    }
  }
}
