# Fencing game rule engine and action parser, in Dafny

This project models the deterministic core of a benchmark in which two
language models play a turn-based "fencing" game against each other:

- `FencingTask` (src/tot/tasks/fencing_game.py) is the game's state machine.
  - State: two hit-point counters that start at 3, one optional debuff per player, a turn counter and an append-only history of turn snapshots.
  - `get_available_actions` filters the four base actions ATTACK, DEFEND, KICKS and FEINT by the player's debuff.
  - `resolve_turn` applies a six-rule rock-paper-scissors table to the two chosen actions. It then overwrites both debuffs, counts the turn, logs a snapshot and returns a verdict.
  - `reset` starts a new game; `get_state_string` formats the state for a player.
- `parse_action` (run_fencing.py) turns a model's free-text answer into one of the available actions.
  - It scans the stripped answer's lines from the bottom up.
  - The first line that names an available action decides. The action is matched as a whole word, ignoring case, and ties go to the first one in list order.
  - Failing that, the first available action named anywhere in the answer is taken. Failing that, the first available action.

Files:

- `pystr.dfy` (module `PyStr`): the Python string operations the core relies on.
  - `str.strip()`, removing ASCII whitespace only.
  - `str.split(sep)` for a one-character separator, as the core uses it.
  - `sep.join(parts)`, which the core never calls, only as the inverse of split for the round-trip lemmas.
  - `str(n)` for integers, as the f-strings render them.
  - Their round-trip and placement lemmas.
- `fencing_game.dfy` (module `FencingGame`):
  - the action and debuff datatypes;
  - availability;
  - the rule table `Clash` and the same rules as a winner/loser table `Beats`;
  - the verdict;
  - the class `FencingTask`, whose methods update its fields in place;
  - the state-string lemmas;
  - two scenario methods taken from the repository's test script.
- `run_fencing.dfy` (module `RunFencing`):
  - whole-word, case-insensitive matching (`\b` + escaped action + `\b` with `re.IGNORECASE`);
  - the method `ParseAction` with the source's loops;
  - the lemmas relating a match in a line to a match in the whole answer.

Main results:

- **Rule table.** `Clash` fires at most one rule and never hands out `Cannot Defend`. It is symmetric under swapping the players (`ClashSymmetric`). It agrees with the six-rule winner/loser table (`ClashFollowsTable`, `TableComplete`). It is a no-op exactly for identical or unknown actions (`ClashNoOp`).
- **Turn resolution.** `ResolveTurn` keeps the game's invariant `Valid` (`TurnKeepsConsistent`). Under it the history holds one entry per turn, numbered from 1, with the last entry a snapshot of the current state, and hit points never rise.
- **Draw.** The `Draw` verdict cannot follow a turn played while both players still stand (`TurnNeverDraws`). Only one player can lose a point per turn, so the source's `Draw` branch is unreachable in play.
- **State string.** `get_state_string` splits back into its six lines (`StateStringLines`).
- **Parser.** `ParseAction` always returns an available action, and its result is the one the bottom-up line scan, the whole-text fallback or the default gives. When no action name contains a line break (as none of the game's names does), the whole-text fallback can never find anything the line scan missed (`FallbackFindsNothing`, `OutputOccursInLine`).

## Model

| member | source | states |
|---|---|---|
| `PyStr.Strip` | run_fencing.py:17 | `strip()` returns a text that neither starts nor ends with whitespace and is no longer than what follows the input's leading whitespace |
| `PyStr.StripSlice` | run_fencing.py:17 | the stripped text is exactly the input between its leading and its trailing run of whitespace; it is empty only when the input is all whitespace |
| `PyStr.LeadingSpace` | run_fencing.py:17 | every character `strip()` removes at the front is whitespace |
| `PyStr.TrailingSpace` | run_fencing.py:17 | every character `strip()` removes at the back is whitespace |
| `PyStr.Split` | run_fencing.py:17 | `split(sep)` yields exactly one more piece than the text has separators, so never an empty list |
| `PyStr.SplitPiecesFree` | run_fencing.py:17 | no piece of `split('\n')` contains a line break |
| `PyStr.SplitJoin` | run_fencing.py:17 | joining the pieces of a split with the separator gives back the original text |
| `PyStr.JoinSplit` | run_fencing.py:17 | splitting a join of separator-free pieces gives back exactly those pieces |
| `PyStr.SplitAfterPiece` | src/tot/tasks/fencing_game.py:32-37 | a separator-free line followed by a line break splits off as one piece ahead of the split of the rest |
| `PyStr.SplitPiece` | run_fencing.py:17 | every piece of a split occurs in the text at some position, delimited by separators or the ends; only the first piece starts at 0 |
| `PyStr.SplitCover` | run_fencing.py:17 | any stretch of the text without a separator lies inside one piece of the split |
| `PyStr.IntString` | src/tot/tasks/fencing_game.py:32-36 | `str(n)` is a non-empty string made only of a minus sign and decimal digits |
| `PyStr.NatString` | src/tot/tasks/fencing_game.py:32-36 | `str(n)` of a non-negative number is a non-empty string of decimal digits without a leading zero |
| `PyStr.IntStringValue` | src/tot/tasks/fencing_game.py:32-36 | `str(n)` is a well-formed signed numeral that reads back as `n` |
| `FencingGame.ActionOf` | src/tot/tasks/fencing_game.py:86-119 | an action string is compared exactly, case-sensitively, with the four action names; any other string is kept as an unknown action |
| `FencingGame.RemoveFirst` | src/tot/tasks/fencing_game.py:46-57 | `list.remove(x)` shortens the list by one and removes one occurrence of `x` and nothing else (as multisets) |
| `FencingGame.Without` | src/tot/tasks/fencing_game.py:40-59 | the reference filter: an element is kept exactly when it differs from `x` |
| `FencingGame.RemoveFirstIsWithout` | src/tot/tasks/fencing_game.py:46-57 | on a list without repeats, `remove` equals the order-preserving filter |
| `FencingGame.Available` | src/tot/tasks/fencing_game.py:42-57 | filtering by a debuff removes the forbidden action once when it is listed and nothing else (as multisets); the list shrinks by one exactly when the forbidden action was listed, and with no debuff it holds the same actions |
| `FencingGame.AvailableFromBase` | src/tot/tasks/fencing_game.py:40-59 | with no debuff all four base actions are offered in order; with a debuff exactly the forbidden action is dropped, the other three keep their order; the result is never empty |
| `FencingGame.FencingTask.GetAvailableActions` | src/tot/tasks/fencing_game.py:40-59 | the player's offered actions are the base actions less the one the player's own debuff forbids; never empty; the state is only read |
| `FencingGame.Clash` | src/tot/tasks/fencing_game.py:80-119 | the `elif` chain fires at most one rule: at most one player loses one hit point or receives one debuff, and `Cannot Defend` is never produced |
| `FencingGame.Beats` | src/tot/tasks/fencing_game.py:67-74 | the six-rule table names a penalty only for two different base actions, and never `Cannot Defend` |
| `FencingGame.TableComplete` | src/tot/tasks/fencing_game.py:67-74 | the six rules decide every pair of distinct base actions, and never both ways |
| `FencingGame.ClashFollowsTable` | src/tot/tasks/fencing_game.py:86-119 | the resolution chain gives the loser of the pair, whichever player that is, the penalty the six-rule table prescribes, and nothing otherwise |
| `FencingGame.ClashSymmetric` | src/tot/tasks/fencing_game.py:86-119 | swapping the two players' actions swaps who receives the same effect |
| `FencingGame.ClashNoOp` | src/tot/tasks/fencing_game.py:80-81 | a turn has no effect exactly when both actions are equal or one of them is not a base action |
| `FencingGame.ClashDamage` | src/tot/tasks/fencing_game.py:86-101 | a player loses a hit point exactly for FEINT against ATTACK or DEFEND against KICKS |
| `FencingGame.Verdict` | src/tot/tasks/fencing_game.py:142-149 | `Draw` exactly when both hit points are at most 0, `P2 Wins` exactly when only player 1 is down, `P1 Wins` exactly when only player 2 is down, `Continue` otherwise |
| `FencingGame.TurnNeverDraws` | src/tot/tasks/fencing_game.py:142-143 | a turn played while both players stand never yields `Draw` |
| `FencingGame.FencingTask.constructor` | src/tot/tasks/fencing_game.py:14-24 | a new game has 3 hit points each, no debuffs, turn 0, an empty history, and satisfies the invariant |
| `FencingGame.FencingTask.Reset` | src/tot/tasks/fencing_game.py:191-200 | reset restores exactly the initial state |
| `FencingGame.FencingTask.ResolveTurn` | src/tot/tasks/fencing_game.py:61-149 | hit points drop by the rule table's losses; both debuffs are replaced by this turn's, independent of the old ones; the turn goes up by one; exactly one snapshot of the new state is appended; the verdict is that of the new hit points; the invariant is kept |
| `FencingGame.TurnKeepsConsistent` | src/tot/tasks/fencing_game.py:124-139 | one resolved and logged turn preserves the invariant: history length equals the turn, entries numbered from 1, last entry equals the state, hit points never rise and their total loss is at most the turn count, no `Cannot Defend` |
| `FencingGame.SplitTerminated` | src/tot/tasks/fencing_game.py:32-37 | lines each followed by a newline split back into those lines plus an empty tail |
| `FencingGame.StateLinesUnbroken` | src/tot/tasks/fencing_game.py:32-37 | no line of the state description contains a line break |
| `FencingGame.FencingTask.GetStateString` | src/tot/tasks/fencing_game.py:26-38 | the state string split at line breaks is exactly the six state lines followed by an empty remainder |
| `FencingGame.StateStringLines` | src/tot/tasks/fencing_game.py:26-38 | the state string consists of exactly its six lines; the player line carries the id, the HP lines show the asking player's own HP before the opponent's, and the status line shows the own debuff or `Normal` |
| `FencingGame.OpeningExchange` | Test_game_modes.py:83-87 | from a fresh game, ATTACK against FEINT leaves player 2 with 2 hit points and the verdict `Continue` |
| `FencingGame.DebuffedChoices` | Test_game_modes.py:50-58 | a fresh game offers four actions; with `Cannot Attack` three remain and ATTACK is not among them |
| `RunFencing.MatchAt` | run_fencing.py:20 | a match of a name that starts (ends) with a word character is preceded (followed) in the text by a non-word character, or else starts (ends) the text |
| `RunFencing.Search` | run_fencing.py:20 | the search succeeds exactly when the action occurs in the text as a whole word, ignoring case |
| `RunFencing.WholeWordExamples` | run_fencing.py:20 | `attack.` contains the word ATTACK, while `ATTACKS` and `COUNTERATTACK` do not |
| `RunFencing.MatchInSlice` | run_fencing.py:20 | inside a stretch flanked by non-word characters, a match in the stretch is a match in the whole text and conversely |
| `RunFencing.Lines` | run_fencing.py:17 | the scanned lines are never an empty list and, joined back with line breaks, give exactly the stripped answer |
| `RunFencing.LineFlanked` | run_fencing.py:17 | every line of the stripped answer occurs in the raw answer flanked on each side by a non-word character or an end of the raw answer |
| `RunFencing.LineOccursInOutput` | run_fencing.py:17-21 | whatever a scanned line names, the whole answer names too |
| `RunFencing.MatchInsideStrip` | run_fencing.py:17-20 | every whole-word match in the raw answer lies inside its stripped part, since the word boundaries keep it clear of the stripped whitespace |
| `RunFencing.OutputOccursInLine` | run_fencing.py:17-26 | an action name without a line break that occurs in the answer occurs in one of the scanned lines |
| `RunFencing.FallbackFindsNothing` | run_fencing.py:23-28 | when no line names an action and no action name contains a line break, the whole-text fallback finds nothing either |
| `RunFencing.FindNamed` | run_fencing.py:19-21 | scanning the actions in list order finds the first one the text names, or reports that it names none |
| `RunFencing.ParseAction` | run_fencing.py:8-28 | the result is an available action. If some line names an action, it is the first action in list order named by the last such line. Otherwise it is the first action named anywhere, or else the first available action. With no action named anywhere, or no line naming one while all names are plain words, it is the first available action. |

## Left out

- src/tot/models.py is not part of this model. It holds the network clients for the model providers, retries, global token counters and float pricing.
- `run_game` (run_fencing.py:30-120) is not modelled. It is command-line parsing, model calls, printing and JSON log writing.
- `value_outputs_unwrap` (src/tot/tasks/fencing_game.py:167-175) is not modelled. It parses floating-point scores.
- The prompt wrappers are not modelled: `propose_prompt_wrap`, `value_prompt_wrap` and the prompt texts in src/tot/prompts/fencing_game.py. They are string templating.
- The stubs `__len__`, `get_input` and `test_output` are not modelled. `get_input` only calls `get_state_string`, which is modelled.
- The `Task` base class (src/tot/tasks/base.py) is not part of this model. `FencingTask.__init__` calls only `Task.__init__` (src/tot/tasks/fencing_game.py:15), and no other member of the base class is used.
- analyze_results.py, Test_game_modes.py and test_setup.py are not modelled: they are result statistics and setup scripts. Only the standard-game assertions of Test_game_modes.py are restated, as scenario methods.
- Game modes are not modelled: `no_kick`, `first_blood`, `action_points`, action-point costs, a reduced rule set, a maximum-turn cutoff and errors for illegal actions. `Test_game_modes.py` constructs `FencingTask(game_mode=...)`, but the class as written takes no arguments and implements only the standard game. The model follows the class as written: an unknown action is a no-op, and an action the player's debuff forbids is not checked again and resolves like any other.
- FencingGame.FencingTask.GetAvailableActions: debuffs are the four names `get_available_actions` recognises, so a debuff string set from outside that is not one of the four names cannot be represented. The source returns all four actions for such a string.
- `self.state` is a dictionary that callers can mutate. The model has one field per key, and outside code may assign the fields, as `DebuffedChoices` does for the debuff. `base_actions` is a constant, since no code in the class changes it.
- RunFencing.ParseAction: Python's `re` works on Unicode. Its `\w` also covers non-ASCII letters and digits, and `IGNORECASE` also folds non-ASCII letters and a few special cases such as the Kelvin sign matching `k`. The model uses ASCII word characters and ASCII case folding.
- PyStr.Strip: `str.strip()` also removes non-ASCII whitespace such as U+0085, U+00A0 and U+2028. The model removes the ASCII whitespace characters (space, `\t` to `\r`, and `\x1c` to `\x1f`).
- RunFencing.ParseAction: an empty `available_actions` makes the source raise `IndexError` at run_fencing.py:14. The model requires a non-empty list instead of modelling the exception.
- RunFencing.FallbackFindsNothing: the redundancy of the whole-text fallback is proved only for action names without a line break, which all the game's actions satisfy. A name containing a line break can match the whole text but no single line.
