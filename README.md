# Game hub engines in Dafny

A verified model of the three game engines of a small React game hub. The rules live inline in
three components: a snake game, tic-tac-toe and a memory-match game. Each engine is a small
sequential state machine driven by discrete events. Here each one is a Dafny class whose fields
are the component's state variables, and each event handler is a method. Pure helpers are
functions and predicates, and the properties the games rely on are proved as lemmas and as class
invariants (`Valid()`).

- `wrappers.dfy`: `Option`, for a missing winner and for input that names no direction.
- `snake.dfy` (module `Snake`): a 20×20 board and a body of cells, head first. A tick moves the
  head one cell in the pending direction. The game ends when the head leaves the board or meets
  the body. Eating the food grows the body and places new food; otherwise the tail drops off.
  Arrow keys and on-screen buttons change the pending direction, but never to its exact reverse.
- `tictactoe.dfy` (module `TicTacToe`): nine squares, X and O in turn. The winner is the mark on
  the first complete line of the fixed eight-line table. A full board without a winner is a draw.
- `memory.dfy` (module `Memory`): sixteen cards, each of 8 symbols twice, shuffled by
  Fisher–Yates. Cards are turned up two clicks at a time. An equal pair is matched. An unequal
  pair stays up and locks the board until a deferred step turns it back down.

Randomness is injected. Food placement takes `draws`, the stream of random cells the retry loop
would draw. The shuffle takes `picks`, where `picks[i]` is the random swap partner of position
`i`, in `0..i`. The memory game's timer callback is the method `FinishMismatch`. A ghost counter
`pending` records how many such callbacks are scheduled and not yet run.

Behaviour of the code worth knowing:

- Reversal is judged against the pending direction, which can change several times between
  ticks.
- The on-screen direction buttons work whether or not the game runs. Only the keyboard handler
  checks `playing`.
- The snake's state is two flags, `playing` and `gameOver`.
- Tic-tac-toe passes the turn after every accepted move, the winning one included.
- A square index outside 0..8 is not rejected by the code. `HandleClick` requires `index < 9`.
- Restarting the memory game does not cancel a pending turn-back step. When it fires it empties
  whatever is face up, so it can turn down a card chosen after the restart
  (`Memory.StaleTurnBack`).
- The memory alphabet is the fixed table of eight symbols.
- With no free cell left, food placement never returns. Hence the precondition that some draw
  is free.

## Model

| member | source | states |
|---|---|---|
| `Snake.InitialStateSound` | src/components/SnakeGame.jsx:3-5 | with a 20-cell board side, the initial body and heading, the first move stays on the board and off the body |
| `Snake.GetRandomFood` | src/components/SnakeGame.jsx:7-15 | given in-bounds random draws of which at least one is free, returns an in-bounds cell not on the body, namely the first draw the body leaves free |
| `Snake.MovePreservesBody` | src/components/SnakeGame.jsx:53-73 | if the next head neither leaves the board nor meets the body, the grown body and the moved body (tail dropped) are both in bounds, non-empty and free of repeated cells |
| `Snake.Turn` | src/components/SnakeGame.jsx:82-88 | the direction update yields either the previous direction or the arrow's heading; from a unit heading the result is a unit heading and never the exact reverse of the previous one |
| `Snake.TurnTakesAllButReverse` | src/components/SnakeGame.jsx:99-105 | from a unit heading an arrow's heading is taken unless it is the reverse of the previous direction, which is then kept |
| `Snake.ArrowFor` | src/components/SnakeGame.jsx:81-86 | an input selects an arrow exactly when it is one of the four names of its source (the key names, or the button names of lines 100-103), and the arrow selected is the one with that name; any other input selects nothing |
| `Snake.SnakeGame.constructor` | src/components/SnakeGame.jsx:29-34 | initial body and heading, food placed off the body, not playing, not over, score 0 |
| `Snake.SnakeGame.Reset` | src/components/SnakeGame.jsx:37-44 | restores the initial body and heading with new food off it, score 0, gameOver false and playing true |
| `Snake.SnakeGame.Tick` | src/components/SnakeGame.jsx:47-76 | not running: nothing changes. Collision with a wall or any body cell (tail included): the game ends with body, food and score unchanged. Food: the body becomes the new head plus the old body, the score rises by 1, and new food lands off the grown body. Otherwise: new head plus the old body without its tail, same length. The invariant (body well formed, food off the body, unit heading) is kept |
| `Snake.SnakeGame.HandleKeyDown` | src/components/SnakeGame.jsx:79-90 | only the pending direction can change; it stays put unless playing and the key is an arrow, and then becomes `Turn` of the old one, never its reverse |
| `Snake.SnakeGame.ManualMove` | src/components/SnakeGame.jsx:98-106 | only the pending direction can change; a named button applies `Turn` whether or not the game runs, never yielding the reverse |
| `TicTacToe.CalculateWinner` | src/components/TicTacToe.jsx:21-28 | returns None exactly when no line is uniform; otherwise the mark of the first uniform line in table order, whose three squares all hold it |
| `TicTacToe.LinesAreTheStraightLines` | src/components/TicTacToe.jsx:4-13 | the line table has eight pairwise different entries, each three squares in equal steps along a row, a column or a diagonal of the 3x3 grid |
| `TicTacToe.NewLineIsMover` | src/components/TicTacToe.jsx:31-37 | one new mark on a board without a complete line can only complete lines through that square, and only lines of that mark |
| `TicTacToe.CountAfterPlace` | src/components/TicTacToe.jsx:32-33 | placing a mark on an empty square adds one of that mark, removes one empty square and leaves the other mark's count alone |
| `TicTacToe.EmptyBoardCounts` | src/components/TicTacToe.jsx:16 | the empty board holds no marks, has no complete line and is not full |
| `TicTacToe.TicTacToeGame.constructor` | src/components/TicTacToe.jsx:16-19 | empty board, X to move, no winner, no draw |
| `TicTacToe.TicTacToeGame.HandleClick` | src/components/TicTacToe.jsx:30-42 | with a winner or on a taken square nothing changes; otherwise exactly that square gets the current mark, the turn flips even on a win, any winner is the mark just placed, the winner is absent exactly when no line is uniform, and the draw flag is set exactly when the board is full with no winner. The invariant is kept: X count equals O count, plus one when O is to move; a winner owns every complete line and moved last; without a winner no line is complete |
| `TicTacToe.TicTacToeGame.Restart` | src/components/TicTacToe.jsx:44-49 | empty board, X to move, no winner, no draw |
| `TicTacToe.WorkedExample` | src/components/TicTacToe.jsx:11 | X:0, O:1, X:4, O:2, X:8 ends with winner X and no draw |
| `Memory.Shuffle` | src/components/MemoryGame.jsx:9-16 | the shuffled deck has the same length and the same multiset of cards as the argument, which is left as it was |
| `Memory.FreshDeck` | src/components/MemoryGame.jsx:27-29 | the unshuffled deck has 16 cards; card `i` has id `i` and shows symbol `i mod 8` of the table |
| `Memory.CardValuesDistinct` | src/components/MemoryGame.jsx:5-7 | the symbol table has 8 pairwise different symbols |
| `Memory.FreshDeckShape` | src/components/MemoryGame.jsx:28-29 | the unshuffled deck has 16 pairwise different cards, card `i` has id `i`, each symbol appears exactly twice and no other symbol appears |
| `Memory.CountValuePermutation` | src/components/MemoryGame.jsx:13 | reordering a deck keeps the number of cards showing each symbol |
| `Memory.DealtCard` | src/components/MemoryGame.jsx:27-30 | every card of a shuffled deck is the unshuffled card with the same id, so its id is below 16 and its symbol is from the alphabet |
| `Memory.DealtDeckShape` | src/components/MemoryGame.jsx:27-30 | a shuffled deck has 16 cards, ids below 16 and pairwise different, symbols from the alphabet, each exactly twice |
| `Memory.MatchedBound` | src/components/MemoryGame.jsx:73 | a repeat-free matched list from the alphabet has at most 8 entries, and exactly 8 precisely when every symbol is matched |
| `Memory.MemoryGame.constructor` | src/components/MemoryGame.jsx:26-36 | a dealt deck, nothing face up, nothing matched, 0 moves, unlocked, no callback pending |
| `Memory.MemoryGame.Restart` | src/components/MemoryGame.jsx:39-49 | a new dealt deck, empty face-up and matched lists, 0 moves, unlocked; already scheduled callbacks stay scheduled |
| `Memory.MemoryGame.HandleClick` | src/components/MemoryGame.jsx:52-70 | a no-op when locked, when the card is already face up or when its symbol is matched; a first card gives `flipped == [idx]` with moves unchanged; a second card adds exactly one move, and then an equal symbol is appended to `matched` and nothing stays up, while an unequal one leaves both cards up, locks, and schedules one callback. The invariant (at most two face-up unmatched cards, locked exactly when two are up, no symbol matched twice, deck a permutation of the fresh deck) is kept |
| `Memory.MemoryGame.FinishMismatch` | src/components/MemoryGame.jsx:64-67 | the deferred step empties the face-up list and unlocks, keeping the invariant |
| `Memory.MemoryGame.IsWon` | src/components/MemoryGame.jsx:73 | true exactly when every symbol of the alphabet is matched |
| `Memory.StaleTurnBack` | src/components/MemoryGame.jsx:39-49 | a restart during a mismatch display followed by a first click: the stale deferred step turns that new card back down |

## Left out

- Rendering: JSX, styling, SVG markup and the derived display flags (head/body/food colouring,
  face-up card display). They are presentation only.
- `src/App.jsx` (route table) and `src/components/GameSelection.jsx` (static list of game links)
  hold no game logic and are not part of this model.
- Timers: the 100 ms tick interval and the 850 ms delay. `Tick` and `FinishMismatch` are the
  callbacks, called explicitly; when and how often they fire is left to the caller.
- `Math.random`: replaced by the injected `draws` and `picks`. Probabilities, and so the
  uniformity of the shuffle and the food placement, are not modelled.
- Keyboard plumbing (`addEventListener`). Only the key-to-direction rule is modelled.
- React batching and closure capture: each handler is one atomic update of the fields.
- The first render of the memory game, before its mount effect deals the deck (deck still empty):
  the constructor is the state after that effect.
- `Memory.MemoryGame.HandleClick` requires `idx < 16`. In the code an out-of-range index makes
  the card lookup fail; the rendered board only passes positions of the deck.
- Score and move counters are unbounded naturals. JavaScript numbers would lose precision only
  far beyond any reachable game.
