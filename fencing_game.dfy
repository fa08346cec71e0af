/** The fencing game's rule engine: a two-player state machine with three
    hit points each, one-turn debuffs that forbid one action, a six-rule
    rock-paper-scissors table, a turn counter and an append-only history. */
module FencingGame {
  import opened PyStr

  datatype Option<T> = None | Some(value: T)

  /** Hit points each player starts with. */
  const StartHp: int := 3

  /** The four actions, in the order the game offers them. */
  const BaseActions: seq<string> := ["ATTACK", "DEFEND", "KICKS", "FEINT"]

  /** An action string as the rule engine sees it; any other string is
      accepted and has no effect. */
  datatype Action = Attack | Defend | Kicks | Feint | Other(name: string)

  function ActionName(a: Action): string {
    match a
    case Attack => "ATTACK"
    case Defend => "DEFEND"
    case Kicks => "KICKS"
    case Feint => "FEINT"
    case Other(s) => s
  }

  /** Classifies an action string; exact, case-sensitive comparison. */
  function ActionOf(s: string): (a: Action)
    ensures ActionName(a) == s
    ensures a.Other? <==> s !in BaseActions
  {
    if s == "ATTACK" then Attack
    else if s == "DEFEND" then Defend
    else if s == "KICKS" then Kicks
    else if s == "FEINT" then Feint
    else Other(s)
  }

  datatype Debuff = CannotAttack | CannotDefend | CannotKick | CannotFeint

  function DebuffName(d: Debuff): string {
    match d
    case CannotAttack => "Cannot Attack"
    case CannotDefend => "Cannot Defend"
    case CannotKick => "Cannot Kick"
    case CannotFeint => "Cannot Feint"
  }

  /** The base action a debuff takes away. */
  function Forbidden(d: Debuff): string {
    match d
    case CannotAttack => "ATTACK"
    case CannotDefend => "DEFEND"
    case CannotKick => "KICKS"
    case CannotFeint => "FEINT"
  }

  // ---------------------------------------------------------------------
  // Action availability

  /** `list.remove(x)`: drops the first occurrence of `x`. */
  function RemoveFirst(s: seq<string>, x: string): (r: seq<string>)
    requires x in s
    ensures |r| == |s| - 1
    ensures multiset(r) == multiset(s) - multiset{x}
  {
    assert s == [s[0]] + s[1..];
    if s[0] == x then s[1..] else [s[0]] + RemoveFirst(s[1..], x)
  }

  /** The elements of `s` other than `x`, in their order. */
  function Without(s: seq<string>, x: string): (r: seq<string>)
    ensures forall y :: y in r <==> y in s && y != x
  {
    if s == [] then []
    else if s[0] == x then Without(s[1..], x)
    else [s[0]] + Without(s[1..], x)
  }

  predicate Distinct(s: seq<string>) {
    forall i, j :: 0 <= i < j < |s| ==> s[i] != s[j]
  }

  /** On a list without repeats, `remove` drops every occurrence and keeps the order. */
  lemma {:induction false} RemoveFirstIsWithout(s: seq<string>, x: string)
    requires Distinct(s) && x in s
    ensures RemoveFirst(s, x) == Without(s, x)
  {
    if s[0] == x {
      assert x !in s[1..];
      WithoutAbsent(s[1..], x);
    } else {
      RemoveFirstIsWithout(s[1..], x);
    }
  }

  lemma {:induction false} WithoutAbsent(s: seq<string>, x: string)
    requires x !in s
    ensures Without(s, x) == s
  {
    if s != [] {
      WithoutAbsent(s[1..], x);
    }
  }

  /** The actions left to a player with the given debuff: the base list with
      the forbidden action removed, if it is there. */
  function Available(base: seq<string>, debuff: Option<Debuff>): (r: seq<string>)
    ensures multiset(r) == multiset(base) - (if debuff.Some? then multiset{Forbidden(debuff.value)} else multiset{})
    ensures |r| == |base| - (if debuff.Some? && Forbidden(debuff.value) in base then 1 else 0)
  {
    match debuff
    case None => base
    case Some(d) => if Forbidden(d) in base then RemoveFirst(base, Forbidden(d)) else base
  }

  /** From the game's own base list, a debuff removes exactly its action,
      keeps the other three in order, and the result is never empty. */
  lemma AvailableFromBase(debuff: Option<Debuff>)
    ensures var r := Available(BaseActions, debuff);
      && (debuff.None? ==> r == BaseActions)
      && (debuff.Some? ==> r == Without(BaseActions, Forbidden(debuff.value)) && |r| == 3)
      && (forall y :: y in r <==> y in BaseActions && (debuff.None? || y != Forbidden(debuff.value)))
      && r != []
  {
    if debuff.Some? {
      RemoveFirstIsWithout(BaseActions, Forbidden(debuff.value));
    }
  }

  // ---------------------------------------------------------------------
  // The rule table

  /** What one turn does: hit points lost and the debuffs for the next turn. */
  datatype Effect = Effect(p1Loss: nat, p2Loss: nat, p1Debuff: Option<Debuff>, p2Debuff: Option<Debuff>)

  const NoEffect := Effect(0, 0, None, None)

  /** How many separate consequences an effect has. */
  function Consequences(e: Effect): nat {
    e.p1Loss + e.p2Loss + (if e.p1Debuff.Some? then 1 else 0) + (if e.p2Debuff.Some? then 1 else 0)
  }

  /** The resolution chain: the first matching rule, tried in the order
      ATTACK/FEINT, FEINT/KICKS, KICKS/DEFEND, DEFEND/ATTACK, ATTACK/KICKS,
      DEFEND/FEINT, each with player 1 as the winner first. At most one
      rule fires; `Cannot Defend` is never handed out. */
  function Clash(a1: Action, a2: Action): (e: Effect)
    ensures Consequences(e) <= 1
    ensures e.p1Debuff != Some(CannotDefend) && e.p2Debuff != Some(CannotDefend)
  {
    if a1 == Attack && a2 == Feint then Effect(0, 1, None, None)
    else if a2 == Attack && a1 == Feint then Effect(1, 0, None, None)
    else if a1 == Feint && a2 == Kicks then Effect(0, 0, None, Some(CannotKick))
    else if a2 == Feint && a1 == Kicks then Effect(0, 0, Some(CannotKick), None)
    else if a1 == Kicks && a2 == Defend then Effect(0, 1, None, None)
    else if a2 == Kicks && a1 == Defend then Effect(1, 0, None, None)
    else if a1 == Defend && a2 == Attack then Effect(0, 0, None, Some(CannotAttack))
    else if a2 == Defend && a1 == Attack then Effect(0, 0, Some(CannotAttack), None)
    else if a1 == Attack && a2 == Kicks then Effect(0, 0, None, Some(CannotKick))
    else if a2 == Attack && a1 == Kicks then Effect(0, 0, Some(CannotKick), None)
    else if a1 == Defend && a2 == Feint then Effect(0, 0, None, Some(CannotFeint))
    else if a2 == Defend && a1 == Feint then Effect(0, 0, Some(CannotFeint), None)
    else NoEffect
  }

  /** What the loser of an exchange suffers. */
  datatype Penalty = Hit | Impose(debuff: Debuff)

  /** The six rules as a table: the penalty when `winner` meets `loser`. */
  function Beats(winner: Action, loser: Action): (r: Option<Penalty>)
    ensures r.Some? ==> !winner.Other? && !loser.Other? && winner != loser
    ensures r != Some(Impose(CannotDefend))
  {
    match (winner, loser)
    case (Attack, Feint) => Some(Hit)
    case (Feint, Kicks) => Some(Impose(CannotKick))
    case (Kicks, Defend) => Some(Hit)
    case (Defend, Attack) => Some(Impose(CannotAttack))
    case (Attack, Kicks) => Some(Impose(CannotKick))
    case (Defend, Feint) => Some(Impose(CannotFeint))
    case _ => None
  }

  function PenaltyOnP1(p: Penalty): Effect {
    match p
    case Hit => Effect(1, 0, None, None)
    case Impose(d) => Effect(0, 0, Some(d), None)
  }

  function PenaltyOnP2(p: Penalty): Effect {
    match p
    case Hit => Effect(0, 1, None, None)
    case Impose(d) => Effect(0, 0, None, Some(d))
  }

  /** The table decides every pair of distinct base actions, one way only. */
  lemma TableComplete(a: Action, b: Action)
    ensures Beats(a, b).Some? ==> Beats(b, a).None?
    ensures !a.Other? && !b.Other? && a != b ==> Beats(a, b).Some? || Beats(b, a).Some?
  {
  }

  /** The resolution chain applies the table, to whichever player lost. */
  lemma ClashFollowsTable(a1: Action, a2: Action)
    ensures Clash(a1, a2) ==
      match Beats(a1, a2)
      case Some(p) => PenaltyOnP2(p)
      case None => (match Beats(a2, a1) case Some(p) => PenaltyOnP1(p) case None => NoEffect)
  {
  }

  function Mirror(e: Effect): Effect {
    Effect(e.p2Loss, e.p1Loss, e.p2Debuff, e.p1Debuff)
  }

  /** Swapping the two actions swaps who receives the same effect. */
  lemma ClashSymmetric(a1: Action, a2: Action)
    ensures Clash(a2, a1) == Mirror(Clash(a1, a2))
  {
  }

  /** A turn changes nothing exactly when the actions are equal or one of
      them is not a base action. */
  lemma ClashNoOp(a1: Action, a2: Action)
    ensures Clash(a1, a2) == NoEffect <==> a1 == a2 || a1.Other? || a2.Other?
  {
  }

  /** Player 1 loses a hit point exactly for FEINT against ATTACK or DEFEND
      against KICKS (and symmetrically for player 2). */
  lemma ClashDamage(a1: Action, a2: Action)
    ensures Clash(a1, a2).p1Loss == if (a1 == Feint && a2 == Attack) || (a1 == Defend && a2 == Kicks) then 1 else 0
    ensures Clash(a1, a2).p2Loss == if (a2 == Feint && a1 == Attack) || (a2 == Defend && a1 == Kicks) then 1 else 0
  {
  }

  // ---------------------------------------------------------------------
  // Verdict

  /** The verdict after a turn: a draw when both are down, otherwise the
      player still standing wins, otherwise the game goes on. */
  function Verdict(p1Hp: int, p2Hp: int): (v: string)
    ensures v == "Draw" <==> p1Hp <= 0 && p2Hp <= 0
    ensures v == "P2 Wins" <==> p1Hp <= 0 < p2Hp
    ensures v == "P1 Wins" <==> p2Hp <= 0 < p1Hp
    ensures v == "Continue" <==> 0 < p1Hp && 0 < p2Hp
  {
    if p1Hp <= 0 && p2Hp <= 0 then "Draw"
    else if p1Hp <= 0 then "P2 Wins"
    else if p2Hp <= 0 then "P1 Wins"
    else "Continue"
  }

  /** Only one player can lose a hit point in a turn, so a turn played while
      both players still stand never ends in a draw. */
  lemma TurnNeverDraws(p1Hp: int, p2Hp: int, a1: Action, a2: Action)
    requires 0 < p1Hp && 0 < p2Hp
    ensures var e := Clash(a1, a2);
      Verdict(p1Hp - e.p1Loss, p2Hp - e.p2Loss) != "Draw"
  {
    var e := Clash(a1, a2);
    assert e.p1Loss + e.p2Loss <= Consequences(e) <= 1;
  }

  // ---------------------------------------------------------------------
  // The game object

  /** One logged turn: the turn number, both action strings, and the hit
      points and debuffs after the turn. */
  datatype HistoryEntry = HistoryEntry(
    turn: int, p1Action: string, p2Action: string,
    p1Hp: int, p2Hp: int, p1Debuff: Option<Debuff>, p2Debuff: Option<Debuff>)

  /** The status text of a player: the debuff's name, or "Normal". */
  function StatusText(d: Option<Debuff>): string {
    match d
    case None => "Normal"
    case Some(x) => DebuffName(x)
  }

  class FencingTask {
    var p1Hp: int
    var p2Hp: int
    var p1Debuff: Option<Debuff>
    var p2Debuff: Option<Debuff>
    var turn: int
    var gameHistory: seq<HistoryEntry>
    const baseActions: seq<string> := BaseActions

    /** The state a new or reset game is in. */
    predicate IsInitial()
      reads this
    {
      p1Hp == StartHp && p2Hp == StartHp && p1Debuff == None && p2Debuff == None
      && turn == 0 && gameHistory == []
    }

    /** What the game's own operations keep true (see `Consistent`). */
    ghost predicate Valid()
      reads this
    {
      Consistent(p1Hp, p2Hp, p1Debuff, p2Debuff, turn, gameHistory)
    }

    constructor ()
      ensures IsInitial() && Valid()
    {
      p1Hp, p2Hp := StartHp, StartHp;
      p1Debuff, p2Debuff := None, None;
      turn := 0;
      gameHistory := [];
    }

    /** Starts a new game on this object. */
    method Reset()
      modifies this
      ensures IsInitial() && Valid()
    {
      p1Hp, p2Hp := StartHp, StartHp;
      p1Debuff, p2Debuff := None, None;
      turn := 0;
      gameHistory := [];
    }

    /** The debuff of player 1, or of player 2 for any other id. */
    function DebuffOf(playerId: int): Option<Debuff>
      reads this
    {
      if playerId == 1 then p1Debuff else p2Debuff
    }

    /** The actions the player may choose this turn: the base actions, in
        order, less the one the player's debuff forbids. */
    function GetAvailableActions(playerId: int): (r: seq<string>)
      reads this
      ensures DebuffOf(playerId).None? ==> r == baseActions
      ensures DebuffOf(playerId).Some? ==> r == Without(baseActions, Forbidden(DebuffOf(playerId).value)) && |r| == 3
      ensures forall y :: y in r <==> y in baseActions && (DebuffOf(playerId).None? || y != Forbidden(DebuffOf(playerId).value))
      ensures r != []
    {
      AvailableFromBase(DebuffOf(playerId));
      Available(baseActions, DebuffOf(playerId))
    }

    /** The lines of the state description shown to a player. */
    function StateLines(playerId: int): seq<string>
      reads this
    {
      var myHp := if playerId == 1 then p1Hp else p2Hp;
      var opHp := if playerId == 1 then p2Hp else p1Hp;
      [ "You are Player " + IntString(playerId) + ".",
        "Turn: " + IntString(turn),
        "CURRENT STATE:",
        "Your HP: " + IntString(myHp),
        "Opponent HP: " + IntString(opHp),
        "Your Status: " + StatusText(DebuffOf(playerId)) ]
    }

    /** The state description shown to a player: its lines, each followed
        by a newline. */
    function GetStateString(playerId: int): (r: string)
      reads this
      ensures Split(r, '\n') == StateLines(playerId) + [""]
    {
      StateLinesUnbroken(this, playerId);
      SplitTerminated(StateLines(playerId));
      Terminated(StateLines(playerId))
    }

    /** Resolves one turn: applies the rule table to the two action strings,
        replaces both debuffs by this turn's, counts the turn, logs it and
        reports the verdict. */
    method ResolveTurn(p1Action: string, p2Action: string) returns (verdict: string)
      modifies this
      ensures var e := Clash(ActionOf(p1Action), ActionOf(p2Action));
        && p1Hp == old(p1Hp) - e.p1Loss && p2Hp == old(p2Hp) - e.p2Loss
        && p1Debuff == e.p1Debuff && p2Debuff == e.p2Debuff
      ensures turn == old(turn) + 1
      ensures gameHistory == old(gameHistory) + [HistoryEntry(turn, p1Action, p2Action, p1Hp, p2Hp, p1Debuff, p2Debuff)]
      ensures verdict == Verdict(p1Hp, p2Hp)
      ensures old(Valid()) ==> Valid()
    {
      var e := Clash(ActionOf(p1Action), ActionOf(p2Action));
      var newP1Hp, newP2Hp, newTurn := p1Hp - e.p1Loss, p2Hp - e.p2Loss, turn + 1;
      var entry := HistoryEntry(newTurn, p1Action, p2Action, newP1Hp, newP2Hp, e.p1Debuff, e.p2Debuff);
      if Valid() {
        TurnKeepsConsistent(p1Hp, p2Hp, p1Debuff, p2Debuff, turn, gameHistory, e, p1Action, p2Action);
      }
      p1Hp, p2Hp := newP1Hp, newP2Hp;
      p1Debuff, p2Debuff := e.p1Debuff, e.p2Debuff;
      turn := newTurn;
      gameHistory := gameHistory + [entry];
      verdict := Verdict(p1Hp, p2Hp);
    }
  }

  /** What the game's own operations keep true of its state: one history
      entry per turn, numbered from 1, the last one a snapshot of the current
      state; hit points only go down, by at most one point per turn in total;
      nobody is ever told they cannot defend. */
  ghost predicate Consistent(p1Hp: int, p2Hp: int, p1Debuff: Option<Debuff>, p2Debuff: Option<Debuff>,
                             turn: int, history: seq<HistoryEntry>)
  {
    && turn == |history|
    && (forall i :: 0 <= i < |history| ==> history[i].turn == i + 1)
    && (history != [] ==>
          var last := history[|history| - 1];
          last.p1Hp == p1Hp && last.p2Hp == p2Hp && last.p1Debuff == p1Debuff && last.p2Debuff == p2Debuff)
    && (forall i :: 0 <= i < |history| ==> p1Hp <= history[i].p1Hp <= StartHp && p2Hp <= history[i].p2Hp <= StartHp)
    && (forall i, j :: 0 <= i <= j < |history| ==>
          history[j].p1Hp <= history[i].p1Hp && history[j].p2Hp <= history[i].p2Hp)
    && p1Hp <= StartHp && p2Hp <= StartHp
    && (StartHp - p1Hp) + (StartHp - p2Hp) <= turn
    && p1Debuff != Some(CannotDefend) && p2Debuff != Some(CannotDefend)
  }

  /** One resolved turn, logged, keeps a consistent state consistent. */
  lemma TurnKeepsConsistent(p1Hp: int, p2Hp: int, p1Debuff: Option<Debuff>, p2Debuff: Option<Debuff>,
                            turn: int, history: seq<HistoryEntry>, e: Effect, p1Action: string, p2Action: string)
    requires Consistent(p1Hp, p2Hp, p1Debuff, p2Debuff, turn, history)
    requires e == Clash(ActionOf(p1Action), ActionOf(p2Action))
    ensures var h1, h2, t := p1Hp - e.p1Loss, p2Hp - e.p2Loss, turn + 1;
      Consistent(h1, h2, e.p1Debuff, e.p2Debuff, t,
                 history + [HistoryEntry(t, p1Action, p2Action, h1, h2, e.p1Debuff, e.p2Debuff)])
  {
  }

  /** The lines `ls`, each followed by a newline (a string built up by `+=`). */
  function Terminated(ls: seq<string>): string {
    if ls == [] then "" else ls[0] + "\n" + Terminated(ls[1..])
  }

  /** Newline-terminated lines split back into those lines and an empty tail. */
  lemma {:induction false} SplitTerminated(ls: seq<string>)
    requires forall i :: 0 <= i < |ls| ==> '\n' !in ls[i]
    ensures Split(Terminated(ls), '\n') == ls + [""]
  {
    if ls != [] {
      SplitAfterPiece(ls[0], Terminated(ls[1..]), '\n');
      SplitTerminated(ls[1..]);
      assert ls == [ls[0]] + ls[1..];
    }
  }

  lemma NoBreakInNumber(n: int)
    ensures '\n' !in IntString(n)
  {
    var d := IntString(n);
    assert forall k :: 0 <= k < |d| ==> d[k] != '\n';
  }

  lemma NoBreakInConcat(a: string, b: string)
    requires '\n' !in a && '\n' !in b
    ensures '\n' !in a + b
  {
    assert forall k :: 0 <= k < |a + b| ==> (a + b)[k] == if k < |a| then a[k] else b[k - |a|];
  }

  lemma NumberLineUnbroken(prefix: string, n: int)
    requires '\n' !in prefix
    ensures '\n' !in prefix + IntString(n)
  {
    NoBreakInNumber(n);
    NoBreakInConcat(prefix, IntString(n));
  }

  lemma StatusLineUnbroken(d: Option<Debuff>)
    ensures '\n' !in "Your Status: " + StatusText(d)
  {
    var status := StatusText(d);
    assert '\n' !in status by {
      match d
      case None =>
      case Some(x) =>
        match x
        case CannotAttack =>
        case CannotDefend =>
        case CannotKick =>
        case CannotFeint =>
    }
    NoBreakInConcat("Your Status: ", status);
  }

  lemma SixUnbroken(ls: seq<string>)
    requires |ls| == 6
    requires '\n' !in ls[0] && '\n' !in ls[1] && '\n' !in ls[2]
    requires '\n' !in ls[3] && '\n' !in ls[4] && '\n' !in ls[5]
    ensures forall i :: 0 <= i < |ls| ==> '\n' !in ls[i]
  {
  }

  /** No line of the state description holds a line break. */
  lemma StateLinesUnbroken(t: FencingTask, playerId: int)
    ensures forall i :: 0 <= i < |t.StateLines(playerId)| ==> '\n' !in t.StateLines(playerId)[i]
  {
    var ls := t.StateLines(playerId);
    NumberLineUnbroken("You are Player ", playerId);
    NoBreakInConcat("You are Player " + IntString(playerId), ".");
    NumberLineUnbroken("Turn: ", t.turn);
    assert '\n' !in ls[2];
    NumberLineUnbroken("Your HP: ", if playerId == 1 then t.p1Hp else t.p2Hp);
    NumberLineUnbroken("Opponent HP: ", if playerId == 1 then t.p2Hp else t.p1Hp);
    StatusLineUnbroken(t.DebuffOf(playerId));
    SixUnbroken(ls);
  }

  /** The state description splits into exactly its six lines and an empty
      remainder; the HP lines show the asking player's own HP first. */
  lemma StateStringLines(t: FencingTask, playerId: int)
    ensures var ls := Split(t.GetStateString(playerId), '\n');
      && ls == t.StateLines(playerId) + [""]
      && ls[0] == "You are Player " + IntString(playerId) + "."
      && ls[3] == "Your HP: " + IntString(if playerId == 1 then t.p1Hp else t.p2Hp)
      && ls[4] == "Opponent HP: " + IntString(if playerId == 1 then t.p2Hp else t.p1Hp)
      && ls[5] == "Your Status: " + StatusText(t.DebuffOf(playerId))
  {
    StateLinesUnbroken(t, playerId);
    SplitTerminated(t.StateLines(playerId));
  }

  /** A fresh game, ATTACK against FEINT: player 2 drops to 2 HP and the
      game goes on. */
  method OpeningExchange() returns (p2HpAfter: int, verdict: string)
    ensures p2HpAfter == 2 && verdict == "Continue"
  {
    var task := new FencingTask();
    verdict := task.ResolveTurn("ATTACK", "FEINT");
    p2HpAfter := task.p2Hp;
  }

  /** A fresh game offers all four actions; once player 1 is told they
      cannot attack, ATTACK is gone and three remain. */
  method DebuffedChoices() returns (normal: seq<string>, debuffed: seq<string>)
    ensures |normal| == 4 && |debuffed| == 3 && "ATTACK" !in debuffed
  {
    var task := new FencingTask();
    normal := task.GetAvailableActions(1);
    task.p1Debuff := Some(CannotAttack);
    debuffed := task.GetAvailableActions(1);
  }
}
