# Memory game session model

A Dafny model of the browser memory game in `js/script.js`. The player asks for a number of
buttons. The page creates that many numbered buttons. After a pause it scrambles their
positions a number of times and then blanks their labels. The player must click the buttons
back in their original order.

The model has three files:

- `wrappers.dfy` (module `Wrappers`) holds `Option`. `None` stands for JavaScript's `NaN`
  (a count `parseInt` could not read) and for a blank label.
- `rules.dfy` (module `Rules`) holds the session as a value. `Click` judges one click and
  `Play` judges a run of clicks. The lemmas state what the game promises: the progress stays
  a prefix of the correct order, Success comes exactly on the completing click, a wrong click
  reveals everything, and clicking 0 .. n-1 wins.
- `game.dfy` (module `MemoryGame`) holds the page's objects as classes:
  - `Button` has a fixed `index`, a mutable `text` label and an `onClick` handler.
  - `UI` has the `container` of displayed buttons.
  - `Game` has `buttons`, `correctOrder`, `userOrder`, `numberOfButtons` and the scramble
    interval's counter.

  Each `Game` method changes these fields step by step, as the script does. Its postcondition
  ties the new state to `Rules`. `Game.Valid()` is the object invariant:
  - button i has identity i;
  - button i shows blank or i+1;
  - button i's handler, once installed, reports i;
  - `correctOrder` is 0 .. n-1;
  - `userOrder` is a prefix of `correctOrder`.

Three client methods show what a caller can derive from those postconditions alone:
`RunScrambleInterval` plays the host's timer, `ClickInOrder` plays the player, and
`PerfectGameWins` plays a whole game.

The model keeps these behaviours of the code, which a reader of the game's rules might not expect:

- The first scramble comes one interval after scrambling starts, not at once. The numbers are
  hidden by the tick after the last scramble (`js/script.js:53-61`).
- A rejected start still overwrites `numberOfButtons` with the parsed value, `NaN` included
  (`js/script.js:18`). The scramble interval reads this field on every tick.
- There is no lockout after Success or Failure. After the whole order has been entered, every
  further click is judged a failure. After a wrong click the progress is kept, so a later
  correct click is still accepted (`js/script.js:71-84`).
- Starting a new game does not cancel a scramble interval that is still running.

## Model

| member | source | states |
|---|---|---|
| `MemoryGame.Button.constructor` | js/script.js:90-98 | A new button keeps the identity it was given, shows that identity plus one, and has no click handler yet. |
| `MemoryGame.Button.HideNumber` | js/script.js:105-107 | The label becomes blank; nothing else on the button changes. |
| `MemoryGame.Button.RevealNumber` | js/script.js:109-111 | The label becomes the button's own identity plus one; nothing else changes. |
| `MemoryGame.UI.constructor` | js/script.js:135-137 | The display surface starts with no buttons. |
| `MemoryGame.UI.ClearButtons` | js/script.js:139-141 | The display surface holds no buttons afterwards. |
| `MemoryGame.UI.AddButton` | js/script.js:143-145 | The button is appended after those already displayed. |
| `MemoryGame.UI.MakeButtonsClickable` | js/script.js:160-164 | The button at each position p gets a handler reporting p; no label changes. |
| `MemoryGame.UI.RevealCorrectOrder` | js/script.js:166-170 | Every button whose position occurs in the order shows its identity plus one. Every other label and every handler is unchanged. |
| `MemoryGame.Game.constructor` | js/script.js:3-10 | The new game has no buttons, an empty correct order and progress, a count of 0, and satisfies the object invariant. |
| `MemoryGame.Game.StartGame` | js/script.js:16-34 | The parsed count is always stored. The alert is Start exactly when the count is a number from 3 to 7, and Validation otherwise. Start replaces the buttons by n fresh ones showing 1 .. n with no handlers, sets the correct order to 0 .. n-1, empties the progress, and displays exactly the new buttons. Validation leaves buttons, orders and display as they were. The scramble state is untouched either way. |
| `MemoryGame.Game.CreateButtons` | js/script.js:36-44 | Creates max(n, 0) fresh buttons. Button i has identity i, shows i+1 and has no handler. The buttons are appended, in order, to what the display held. |
| `MemoryGame.Game.StartScrambling` | js/script.js:50-53 | Registers the scramble interval with its counter at zero. |
| `MemoryGame.Game.ScrambleTick` | js/script.js:53-61 | The tick scrambles exactly when the counter is below the stored count (NaN allows none). A scrambling tick adds one to the counter and changes no label or handler. Otherwise the tick cancels the interval, blanks every label, and gives the button at position i a handler reporting i. |
| `MemoryGame.Game.HideNumbers` | js/script.js:64-67 | Every label is blank afterwards, and the button at position i reports identity i when clicked. |
| `MemoryGame.Game.HandleClick` | js/script.js:69-85 | The new labels, correct order, progress and alert are exactly those of `Rules.Click` on the old session. Handlers are unchanged and the object invariant (progress a prefix of the order) is kept. |
| `MemoryGame.Game.AcceptClick` | js/script.js:71-79 | For the next expected identity k: the result is `Rules.Click`'s correct branch, with k appended and button k revealed. |
| `MemoryGame.Game.RevealAll` | js/script.js:80-84 | The labels become `Rules.RevealOrder` of the old labels over the correct order; handlers are unchanged. |
| `MemoryGame.Game.ClickButton` | js/script.js:160-164 | A click on a button with no handler changes nothing and raises nothing. Once the handler is installed, a click on position p is judged as `Rules.Click` of identity p. |
| `MemoryGame.RunScrambleInterval` | js/script.js:50-62 | The ticks from the delayed start until the interval cancels itself scramble exactly as many times as the stored count allows. Afterwards every label is blank and handler i reports i. |
| `MemoryGame.ClickInOrder` | js/script.js:69-85 | Clicking positions 0 .. n-1 with the handlers installed takes the game through exactly the sessions and alerts of `Rules.Play` over the identities 0 .. n-1. |
| `MemoryGame.PerfectGameWins` | js/script.js:16-85 | For every count from 3 to 7, a game that is started, scrambled and then clicked in order raises nothing on the first n-1 clicks and Success on the last. |
| `Rules.Click` | js/script.js:69-85 | Judging a click keeps the session well formed and never changes the correct order. |
| `Rules.Play` | js/script.js:69-85 | A run of clicks keeps the session well formed, keeps the correct order, and gives one alert per click. |
| `Rules.PlayAppend` | js/script.js:69-85 | One more click continues from the session the earlier clicks left and appends its alert. |
| `Rules.RevealEveryIdentity` | js/script.js:166-170 | Revealing the identities 0 .. n-1 shows every button's own number, whatever was shown before. |
| `Rules.CorrectClick` | js/script.js:71-74 | A click on the next expected identity k appends k to the progress. It sets button k's label to k+1, leaves every other label unchanged, and keeps the progress a prefix of the order. |
| `Rules.WrongClick` | js/script.js:80-84 | Any click other than the next expected identity raises Failure, keeps the progress, and shows every button's number. |
| `Rules.CompletedSessionFails` | js/script.js:71 | Once the whole order has been entered there is no next identity, so every click is a failure that reveals the order. |
| `Rules.SuccessOnlyOnCompletion` | js/script.js:76-79 | Success is raised if and only if the click is the next expected identity and completes the order; the progress then equals the correct order. |
| `Rules.PlayKeepsPrefix` | js/script.js:71-73 | Whatever identities are clicked, the progress stays a prefix of the correct order. |
| `Rules.PlayRestOfOrder` | js/script.js:71-79 | Entering the rest of the order from position j completes the order. Every click but the last is silent and the last raises Success. Exactly the clicked buttons are revealed. |
| `Rules.InOrderWins` | js/script.js:71-79 | On n > 0 hidden buttons, clicking 0 .. n-1 ends with the progress equal to the correct order and every number shown. There is no alert before the last click and Success on it. |

## Left out

- DOM access is not modelled: `getElementById`, `createElement`, `innerHTML`, styles and
  `setupEventListeners` (`js/script.js:12-14`). A button element is represented by its
  `Button` object.
- The text of `alert` is not modelled, and the `messages` table is defined outside
  `js/script.js`. Each alert is a `Message` tag that the method returns.
- `parseInt` is not modelled. `StartGame` takes its result as an `Option<int>`, with `None`
  for `NaN`.
- Timer durations are not modelled: `pauseForSeconds` and the `setTimeout`/`setInterval`
  periods. `StartScrambling` is the delayed callback and `ScrambleTick` is one firing of the
  interval.
- Concurrent intervals are not modelled. The model keeps one interval's counter. If
  scrambling restarts while an earlier interval is still running, the model replaces that
  interval; on the page both go on ticking.
- `ScrambleTick` does not state where the buttons move. `UI.scrambleButtons`,
  `Button.getRandomPosition` and `Button.setPosition` depend on `Math.random`, floating-point
  products and window size. A scrambling tick is modelled as changing no label, identity or
  order.
- `UI.arrangeButtons` and `UI.getRandomColor` are not modelled: they set only style (position
  and colour).
- UI.MakeButtonsClickable and UI.RevealCorrectOrder require distinct buttons. The only caller
  passes the game's buttons, whose identities differ.
