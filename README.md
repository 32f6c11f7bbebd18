# Guess work of art: the quiz round, modelled in Dafny

The app scrapes artwork descriptions and image links from one web page and
runs a four-button guessing game. Each round does four things:

- it picks a target description (`numberOfQuestion`) and a correct button (`numberOfRightQuestion`);
- it loads the target's image;
- it fills the correct button with the target description;
- it fills every other button with a description found by rejection sampling over random indices.

Pressing a button shows a "right" or an "incorrect" toast and starts the next round.

This project models that round logic of `MainActivity` and proves properties of it:

- `wrappers.dfy`: an `Option` type.
- `quiz.dfy` (module `Quiz`): the round as pure logic.
  - `FirstOther` is the draw the rejection loop accepts.
  - `PickSlots` gives the description index each button receives.
  - `AnswerMessage` is the toast text.
  - `Outcome` and `ButtonsAfter` say how a round ends.
  - The method `DrawWrongAnswer` is the inner `while (true)` loop, with its `tempList`.
- `quiz_properties.dfy` (module `QuizProperties`): lemmas about the round. They cover when it can finish, what the buttons hold, and how answers are judged.
- `extraction.dfy` (module `Extraction`): the list building of `createPattern`, and the consequence of looking images up by the description index.
- `main_activity.dfy` (module `Activity`): the class `MainActivity`.
  - It holds the fields the source updates: `descriptions`, `urlsImg`, `numberOfQuestion`, `numberOfRightQuestion`, the four button texts (an array) and the answer toast.
  - Its methods change them as `createPattern`, `generateQuestion`, `playGame`, `getContent` and `onClickAnswer` do.

Every `random()` result is an input. The wrong-answer loop consumes a supplied
finite sequence of draws. Think of it as the first draws of the random stream.
When the loop has accepted no draw by the end of that sequence, the round ends
as `Stalled`, and the buttons before the stalled one keep the texts already set.
The real loop would go on drawing. So a round whose every draw sequence stalls
never finishes in the app (`OneDescriptionNeverCompletes`).

What the code does, and the model with it:

- The duplicate check on `tempList` never rejects a draw. The list is created empty for each button, and the loop leaves as soon as it adds to the list.
- Wrong answers are excluded by index only. Their texts may repeat across buttons, and may equal the target's text when two entries share a description.
- The answer is judged by button position, not by text.
- `descriptions` and `urlsImg` are built from separate captures. Their lengths are never compared, yet the image is looked up with the description index.

## What the code does not ensure

- The per-button `tempList` check (MainActivity.kt:92, 99-104) looks meant to keep wrong answers distinct, but it never rejects a draw. Wrong answers may repeat, and may show the target's text (`WrongAnswersMayRepeat`, `TargetTextMayRepeat`).
- `descriptions` and `urlsImg` are never paired or length-checked, yet the image is looked up with the description index. A round fails when that index has no image URL (`ImageFoundIff`).
- With one description the `while (true)` loop never accepts a draw and runs forever (`OneDescriptionNeverCompletes`). With two or more descriptions, some draws finish the round (`CanCompleteIff`).

## Model

| member | source | states |
|---|---|---|
| `Quiz.FirstOther` | app/src/main/java/com/example/guessworkofart/MainActivity.kt:97-107 | The position of the draw the rejection loop accepts: the first draw at or after `from` whose index differs from the target's. All draws before it are the target index. None means every remaining draw is the target index. |
| `Quiz.DrawWrongAnswer` | app/src/main/java/com/example/guessworkofart/MainActivity.kt:92-107 | The `while (true)` loop with its per-button `tempList` accepts exactly the draw `FirstOther` names, so the duplicate test never rejects; an accepted draw is never the target index |
| `Quiz.PickSlots` | app/src/main/java/com/example/guessworkofart/MainActivity.kt:91-110 | The description indices the buttons from `slot` on receive, in button order; at most one per remaining button |
| `QuizProperties.PickSlotsShape` | app/src/main/java/com/example/guessworkofart/MainActivity.kt:94-105 | The correct button receives the target index. Every other filled button receives some supplied draw that is not the target index. Exclusion is by index, not by text. |
| `QuizProperties.FillCompletesIff` | app/src/main/java/com/example/guessworkofart/MainActivity.kt:91-110 | All remaining buttons are filled if and only if the draws hold at least as many non-target draws as there are wrong-answer buttons left |
| `QuizProperties.NoAcceptableDrawStalls` | app/src/main/java/com/example/guessworkofart/MainActivity.kt:94-107 | With no non-target draw left, at most the correct button is set, and only when it is the next button |
| `QuizProperties.OneDescriptionNeverCompletes` | app/src/main/java/com/example/guessworkofart/MainActivity.kt:97-107 | With one description and any draws, the round stalls: only button 1 is set, and only when it is the correct one |
| `QuizProperties.ConstantDraws` | app/src/main/java/com/example/guessworkofart/MainActivity.kt:91-107 | When all remaining draws are one non-target index and there are enough of them, every wrong-answer button receives that index |
| `QuizProperties.WrongAnswersMayRepeat` | app/src/main/java/com/example/guessworkofart/MainActivity.kt:92-104 | Three equal non-target draws fill all three wrong-answer buttons with the same description |
| `QuizProperties.CanCompleteIff` | app/src/main/java/com/example/guessworkofart/MainActivity.kt:97-107 | Some in-range draws fill all four buttons if and only if there are at least two descriptions |
| `QuizProperties.TargetTextMayRepeat` | app/src/main/java/com/example/guessworkofart/MainActivity.kt:94-104 | If another entry shares the target's text, all four buttons can show that text, and pressing a wrong button is still judged incorrect |
| `QuizProperties.PresentedButtons` | app/src/main/java/com/example/guessworkofart/MainActivity.kt:91-110 | After a completed round the correct button shows the target description, and each other button shows `descriptions[k]` for a draw `k` that is not the target index |
| `QuizProperties.AnswerNamesShownTarget` | app/src/main/java/com/example/guessworkofart/MainActivity.kt:181-189 | After a completed round, the correct button yields the right-answer message; any other yields the incorrect message, a space and the text shown on the correct button |
| `Quiz.AnswerMessage` | app/src/main/java/com/example/guessworkofart/MainActivity.kt:181-193 | The tag equal to the correct button gives the right-answer text. Any other tag gives the incorrect text, a space and the target description. None when the target index is outside `descriptions`, where the source throws. |
| `Quiz.Outcome` | app/src/main/java/com/example/guessworkofart/MainActivity.kt:86-110 | The round fails on the image lookup exactly when the question index is not below the number of image URLs; with the index in range it ends without a bitmap exactly when none was loaded; with a bitmap it fails on the first button exactly when there are no descriptions; otherwise it is presented exactly when all four buttons get a pick, and a stalled round filled fewer |
| `Quiz.FilledButtons` | app/src/main/java/com/example/guessworkofart/MainActivity.kt:91-110 | The four button texts after filling: the picked descriptions on the buttons that were set, the earlier texts on the rest |
| `Quiz.ButtonsAfter` | app/src/main/java/com/example/guessworkofart/MainActivity.kt:89-111 | Four button texts: filled when a bitmap came back and the descriptions are non-empty, unchanged otherwise |
| `Extraction.ImageUrls` | app/src/main/java/com/example/guessworkofart/MainActivity.kt:131 | One URL per image capture, in order, each the https prefix followed by the capture |
| `Extraction.ImageFoundIff` | app/src/main/java/com/example/guessworkofart/MainActivity.kt:87-88 | Every question index a round can pick has an image URL if and only if there are at least as many image captures as text captures |
| `Activity.MainActivity.constructor` | app/src/main/java/com/example/guessworkofart/MainActivity.kt:31-53 | Both indices start at 0, both lists start empty, there is no answer toast, and there are four buttons |
| `Activity.MainActivity.CreatePattern` | app/src/main/java/com/example/guessworkofart/MainActivity.kt:125-132 | `descriptions` becomes the text captures and `urlsImg` the image URLs of the image captures, independently of each other |
| `Activity.MainActivity.GenerateQuestion` | app/src/main/java/com/example/guessworkofart/MainActivity.kt:116-123 | With no descriptions, both indices are unchanged and the failure message is reported. Otherwise both indices take their draws, so `numberOfQuestion < \|descriptions\|` and `numberOfRightQuestion < 4`. |
| `Activity.MainActivity.FillButton` | app/src/main/java/com/example/guessworkofart/MainActivity.kt:92-109 | One button of the loop: it is set to the description `PickSlots` gives it and the draw position moves past the accepted draw, or no draw is acceptable and the button keeps its text |
| `Activity.MainActivity.FillSlots` | app/src/main/java/com/example/guessworkofart/MainActivity.kt:91-110 | The buttons become `FilledButtons` of the current question: the number set is the length of `PickSlots`, and the buttons not reached keep their texts |
| `Activity.MainActivity.PlayGame` | app/src/main/java/com/example/guessworkofart/MainActivity.kt:83-113 | A new question as `GenerateQuestion` gives it, then the outcome and the button texts as `Outcome` and `ButtonsAfter` give them; the lists and the toast are unchanged |
| `Activity.MainActivity.LoadContent` | app/src/main/java/com/example/guessworkofart/MainActivity.kt:74-81 | The lists are rebuilt from the captures, then a round is played on them |
| `Activity.MainActivity.OnClickAnswer` | app/src/main/java/com/example/guessworkofart/MainActivity.kt:178-195 | When the message can be built, the toast becomes `AnswerMessage` of the old indices and a new round is played. Otherwise nothing changes and the click ends in the index error. |

## Left out

- `downloadText` and `downloadImage`: HTTP and bitmap decoding. The page text enters only through the captures given to `CreatePattern`. The image download enters as the `imageLoaded` flag of a round.
- Regular-expression matching, the pattern strings and the `toString()` re-joining of the block matches in `createPattern`. The patterns are string resources outside this model. `CreatePattern` takes the group-1 captures of the text and image patterns as inputs.
- The connectivity check and the network callback in `start`: these are operating-system callbacks. Each `onAvailable` re-runs `getContent`, which is `LoadContent` here. The lost-network toast and the hidden layout are UI only.
- Coroutines (`lifecycleScope.launch`, `withContext`). Rounds run one after another here. The `while (true)` loop runs on the main thread in the app, so a stalled round freezes the UI; the model does not capture that.
- Toast creation, cancellation and display, button and layout visibility, and `setImageBitmap`. Only the message values are kept: the answer toast as the `toast` field; the data-failure toast as the `notice` a round returns.
- Randomness as a distribution: draws are caller-supplied values in the range `random()` would return, never probabilities.
- `tag.toString().toInt()`: the tag is an `int` parameter; a tag that is not a number is not modelled.
- The initial button texts come from a layout outside this model; the constructor uses empty strings.
- Kotlin's 32-bit `Int`: every integer here is an index into a short list, so wrap-around cannot occur and is not modelled.
- `Quiz.ButtonsAfter`: its own contract states only that there are four texts. What the texts are is stated by `PresentedButtons` and by the contracts of `FillSlots` and `PlayGame`.
- `Quiz.FilledButtons`: its own contract states only that there are four texts. What the texts are is stated by `PresentedButtons` and by the contract of `FillSlots`.
- Ending the app: `ImageIndexOutOfRange` and `DescriptionsEmpty` (MainActivity.kt:87, 95, 98) and `MessageIndexOutOfRange` (MainActivity.kt:189) are uncaught exceptions that end the app. The model reports them as outcomes and lets later calls run; it does not stop there. Only `generateQuestion`'s exception is caught (MainActivity.kt:120).
