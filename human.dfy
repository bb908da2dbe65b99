/**
 * The human player's turn (mafia/src/human.cpp): how a line typed at the console is read, the
 * acceptance rule of each role, the Commissioner's command grammar and the choice recorded in
 * the game state.
 *
 * Console lines are abstracted. A line is empty, or the whitespace-separated tokens it holds;
 * a token is an integer literal or a word that does not start with one. `std::stoi` of a line
 * is its first token when that is an integer in the 32-bit range, and throws otherwise. The
 * console is a finite sequence of lines; a re-prompt loop that reaches its end has no result,
 * since the source would wait for input forever.
 */
module Humans {
  import opened Wrappers
  import opened RoleTraits
  import opened GameStates
  import opened Roles
  import HV = HostView
  import opened Ascii

  // ---------------------------------------------------------------- console lines

  datatype Token = Num(v: int) | Word(w: string)

  /** A console line: the empty string, or a non-empty string split at whitespace (no tokens when it is all blanks). */
  datatype Line = Blank | Words(ts: seq<Token>)

  /** A line read, and the console after it. */
  datatype Read = Read(line: Line, rest: seq<Line>)

  const IntMin: int := -0x8000_0000
  const IntMax: int := 0x7fff_ffff

  predicate IsInt(v: int) {
    IntMin <= v <= IntMax
  }

  /**
   * `async_input`: an empty line waiting at the console is skipped once, then one line is read.
   * An exhausted console reads as an empty line.
   */
  function Next(input: seq<Line>): (r: Read)
    ensures input == [] ==> r == Read(Blank, [])
    ensures input != [] ==> |r.rest| < |input|
    ensures input != [] && (input[0] != Blank || |input| == 1) ==> r == Read(input[0], input[1..])
    ensures |input| >= 2 && input[0] == Blank ==> r == Read(input[1], input[2..])
  {
    if input == [] then Read(Blank, [])
    else if input[0] == Blank && |input| >= 2 then Read(input[1], input[2..])
    else Read(input[0], input[1..])
  }

  /** `std::stoi` of a non-empty line: its leading integer, or None when it throws. */
  function Stoi(ts: seq<Token>): (r: Option<int>)
    ensures r.Some? <==> ts != [] && ts[0].Num? && IsInt(ts[0].v)
    ensures r.Some? ==> r.value == ts[0].v
  {
    if ts != [] && ts[0].Num? && IsInt(ts[0].v) then Some(ts[0].v) else None
  }

  /**
   * The variable `t` after `if (!s.empty()) try { t = stoi(s); } catch (...) { t = -1; }`:
   * an empty line leaves `t` as it was.
   */
  function Parsed(line: Line, t: int): (r: int)
    ensures line == Blank ==> r == t
    ensures line.Words? ==> r == Stoi(line.ts).GetOr(-1)
  {
    match line
    case Blank => t
    case Words(ts) => match Stoi(ts) case Some(v) => v case None => -1
  }

  // ---------------------------------------------------------------- day

  /** The day vote recorded for the human: the id typed, if it is an alive player other than the human; otherwise an abstention. */
  function DayVote(alive: set<int>, human: int, line: Line): (v: int)
    ensures v == -1 || (v in alive && v != human)
    ensures v != -1 ==> v == Parsed(line, -1)
    ensures var t := Parsed(line, -1); t in alive && t != human ==> v == t
  {
    var t := Parsed(line, -1);
    if t in alive && t != human then t else -1
  }

  // ---------------------------------------------------------------- the Commissioner's command

  predicate IsShootWord(t: Token) {
    t.Word? && Lower(t.w) in {"s", "shoot"}
  }

  predicate IsCheckWord(t: Token) {
    t.Word? && Lower(t.w) in {"p", "check"}
  }

  /** A token that `>>` into an `int` reads successfully. */
  predicate IsIntToken(t: Token) {
    t.Num? && IsInt(t.v)
  }

  /**
   * `iss >> t` when `i` tokens have been consumed and `t` is still -1: the value `t` then
   * holds (0 when a word follows, the nearest bound when the literal is out of range, and
   * -1 at the end of the line, where the stream has already reached its end and the
   * extraction stores nothing) and whether the stream is still good afterwards.
   */
  function Extract(ts: seq<Token>, i: nat): (r: (int, bool))
    ensures r.1 <==> i < |ts| && ts[i].Num? && IsInt(ts[i].v)
    ensures r.1 ==> r.0 == ts[i].v
    ensures IsInt(r.0)
    ensures i >= |ts| ==> r.0 == -1
    ensures i < |ts| && ts[i].Word? ==> r.0 == 0
  {
    if i >= |ts| then (-1, false)
    else if ts[i].Word? then (0, false)
    else if ts[i].v > IntMax then (IntMax, false)
    else if ts[i].v < IntMin then (IntMin, false)
    else (ts[i].v, true)
  }

  /** What the command line asks for before validation: shoot or not, and the id read (-1 when none). */
  datatype Command = Command(shoot: bool, t: int)

  /**
   * The Commissioner's command grammar: `s <id>`/`shoot <id>` to shoot, `p <id>`/`check <id>`
   * or a bare id to inspect, keywords in any ASCII case. When no id has been read yet (t is
   * still -1) and more input follows, one more integer is read.
   */
  function ParseCommand(ts: seq<Token>): (c: Command)
    ensures c.shoot <==> ts != [] && IsShootWord(ts[0])
    ensures ts == [] ==> c.t == -1
    ensures IsInt(c.t)
    // a keyword, then the id
    ensures |ts| >= 2 && (IsShootWord(ts[0]) || IsCheckWord(ts[0])) && IsIntToken(ts[1]) && ts[1].v != -1 ==>
              c.t == ts[1].v
    // a keyword, then an id out of the 32-bit range: the extraction stores the nearest bound
    ensures |ts| >= 2 && (IsShootWord(ts[0]) || IsCheckWord(ts[0])) && ts[1].Num? && !IsInt(ts[1].v) ==>
              c.t == if ts[1].v > IntMax then IntMax else IntMin
    // a keyword and nothing after it: the stream is already at its end, and nothing is stored
    ensures |ts| == 1 && (IsShootWord(ts[0]) || IsCheckWord(ts[0])) ==> c.t == -1
    // a keyword, then a word: the failed extraction stores 0
    ensures |ts| >= 2 && (IsShootWord(ts[0]) || IsCheckWord(ts[0])) && ts[1].Word? ==> c.t == 0
    // a keyword, then -1: one more id is read when more input follows
    ensures |ts| == 2 && (IsShootWord(ts[0]) || IsCheckWord(ts[0])) && ts[1] == Num(-1) ==> c.t == -1
    ensures |ts| >= 3 && (IsShootWord(ts[0]) || IsCheckWord(ts[0])) && ts[1] == Num(-1) && IsIntToken(ts[2]) ==>
              c.t == ts[2].v
    ensures |ts| >= 3 && (IsShootWord(ts[0]) || IsCheckWord(ts[0])) && ts[1] == Num(-1) && ts[2].Word? ==> c.t == 0
    // a bare id is an inspection
    ensures ts != [] && IsIntToken(ts[0]) && ts[0].v != -1 ==> c.t == ts[0].v && !c.shoot
    // a first token that gives no id: the next token is read, if there is one
    ensures |ts| == 1 && !IsShootWord(ts[0]) && !IsCheckWord(ts[0]) && !(IsIntToken(ts[0]) && ts[0].v != -1) ==>
              c.t == -1
    ensures |ts| >= 2 && !IsShootWord(ts[0]) && !IsCheckWord(ts[0]) && !(IsIntToken(ts[0]) && ts[0].v != -1) ==>
              c.t == (if IsIntToken(ts[1]) then ts[1].v else if ts[1].Word? then 0 else if ts[1].v > IntMax then IntMax else IntMin)
  {
    if ts == [] then Command(false, -1)
    else
      var keyword := IsShootWord(ts[0]) || IsCheckWord(ts[0]);
      var first: (int, bool) :=
        if keyword then
          var e := Extract(ts, 1);
          (e.0, e.1 && 2 < |ts|)
        else
          (Stoi(ts).GetOr(-1), 1 < |ts|);
      var pos := if keyword then 2 else 1;
      var t := if first.0 == -1 && first.1 then Extract(ts, pos).0 else first.0;
      Command(IsShootWord(ts[0]), t)
  }

  /** The id is kept only if it is positive, alive and not the human's own. */
  function ValidTarget(alive: set<int>, human: int, t: int): (r: int)
    ensures r == -1 || (r > 0 && r in alive && r != human)
    ensures r != -1 <==> t > 0 && t in alive && t != human
    ensures r != -1 ==> r == t
  {
    if t <= 0 || t !in alive || t == human then -1 else t
  }

  /** The night choice the Commissioner records: `-(t + 1)` for a shot, `t` for an inspection, -1 otherwise. */
  function CommissionerChoice(alive: set<int>, human: int, line: Line): int {
    match line
    case Blank => -1
    case Words(ts) =>
      var c := ParseCommand(ts);
      var t := ValidTarget(alive, human, c.t);
      if c.shoot && t != -1 then -(t + 1)
      else if t != -1 then t
      else -1
  }

  /**
   * `Commissioner::set_target` reads the recorded choice back as the command given: a shot at
   * or an inspection of the validated id, or no order when the id was rejected.
   */
  lemma CommandRoundTrip(alive: set<int>, human: int, ts: seq<Token>)
    ensures var c := ParseCommand(ts);
            var t := ValidTarget(alive, human, c.t);
            DecodeOrder(CommissionerChoice(alive, human, Words(ts)))
              == if t == -1 then NoOrder else if c.shoot then ShootOrder(t) else InspectOrder(t)
  {
  }

  /** Whatever was typed, the order decoded names a positive, alive id other than the human, or is no order. */
  lemma CommandTargetsValid(alive: set<int>, human: int, line: Line)
    ensures var o := DecodeOrder(CommissionerChoice(alive, human, line));
            o.NoOrder? || (o.who > 0 && o.who in alive && o.who != human)
  {
    if line.Words? {
      CommandRoundTrip(alive, human, line.ts);
    }
  }

  /** `s 4` shoots player 4, with ids 1 to 5 alive and the human as 1. */
  lemma ShootExample()
    ensures DecodeOrder(CommissionerChoice({1, 2, 3, 4, 5}, 1, Words([Word("s"), Num(4)]))) == ShootOrder(4)
  {
    assert Lower("s") == "s";
    assert ParseCommand([Word("s"), Num(4)]) == Command(true, 4);
  }

  /** `SHOOT -1 5` shoots player 5: the -1 read first makes the parser read one more id. */
  lemma ShootAfterMinusOneExample()
    ensures DecodeOrder(CommissionerChoice({1, 2, 3, 4, 5}, 1, Words([Word("SHOOT"), Num(-1), Num(5)]))) == ShootOrder(5)
  {
    assert Lower("SHOOT") == "shoot";
    assert ParseCommand([Word("SHOOT"), Num(-1), Num(5)]) == Command(true, 5);
  }

  /** A bare `2` inspects player 2. */
  lemma InspectExample()
    ensures DecodeOrder(CommissionerChoice({1, 2, 3, 4, 5}, 1, Words([Num(2)]))) == InspectOrder(2)
  {
    assert ParseCommand([Num(2)]) == Command(false, 2);
  }

  /** `s 1` names the human and gives no order. */
  lemma SelfTargetExample()
    ensures DecodeOrder(CommissionerChoice({1, 2, 3, 4, 5}, 1, Words([Word("s"), Num(1)]))) == NoOrder
  {
    assert Lower("s") == "s";
    assert ParseCommand([Word("s"), Num(1)]) == Command(true, 1);
  }

  // ---------------------------------------------------------------- re-prompt loops

  /**
   * The first value a re-prompt loop accepts: each line read updates `t` as `Parsed` does and
   * the loop stops as soon as `t` is in `ok`; None when the console runs out first.
   */
  function FirstAccepted(input: seq<Line>, ok: set<int>, t: int): (r: Option<int>)
    ensures r.Some? ==> r.value in ok
    decreases |input|
  {
    if input == [] then None
    else
      var rd := Next(input);
      var t' := Parsed(rd.line, t);
      if t' in ok then Some(t') else FirstAccepted(rd.rest, ok, t')
  }

  /** A first line holding an acceptable id is taken at once; an empty line keeps the value rejected before it. */
  lemma {:induction false} FirstAcceptedSteps(input: seq<Line>, ok: set<int>, t: int)
    requires input != []
    ensures Parsed(Next(input).line, t) in ok ==> FirstAccepted(input, ok, t) == Some(Parsed(Next(input).line, t))
    ensures Next(input).line == Blank && t !in ok ==> FirstAccepted(input, ok, t) == FirstAccepted(Next(input).rest, ok, t)
  {
  }

  /** The `while (true)` loop: read lines until the value read is acceptable. */
  method RePrompt(input: seq<Line>, ok: set<int>) returns (r: Option<int>, rest: seq<Line>)
    ensures r == FirstAccepted(input, ok, -1)
    ensures r.Some? ==> r.value in ok
  {
    var t := -1;
    rest := input;
    while rest != []
      invariant FirstAccepted(rest, ok, t) == FirstAccepted(input, ok, -1)
      decreases |rest|
    {
      var rd := Next(rest);
      t := Parsed(rd.line, t);
      rest := rd.rest;
      if t in ok {
        return Some(t), rest;
      }
    }
    r := None;
  }

  /** The Doctor accepts an alive id, but not the one healed last night while anyone else is alive. */
  function DoctorAccepts(alive: set<int>, prev: Option<int>): (ok: set<int>)
    ensures forall t :: t in ok <==> t in alive && !(prev.Some? && prev.value == t && |alive| > 1)
  {
    alive - (if prev.Some? && |alive| > 1 then {prev.value} else {})
  }

  /** The Maniac and the Witness accept an alive id other than the human's own. */
  function OthersAlive(alive: set<int>, human: int): (ok: set<int>)
    ensures forall t :: t in ok <==> t in alive && t != human
  {
    alive - {human}
  }

  /** The Mafia's or the Bull's choice: an alive id the host does not report as mafia, else -1. */
  function MafiaChoice(alive: set<int>, roles: map<int, RoleKind>, line: Line): (v: int)
    ensures v == -1 || (v in alive && HV.AlignmentOf(roles, v) != HV.Mafia)
    ensures var t := Parsed(line, -1); t in alive && HV.AlignmentOf(roles, t) != HV.Mafia ==> v == t
  {
    var t := Parsed(line, -1);
    if t in alive && HV.AlignmentOf(roles, t) != HV.Mafia then t else -1
  }

  /** `role_name_for(id)`: the display name of the dealt role, empty when none was dealt. */
  function RoleNameFor(roles: map<int, RoleKind>, id: int): (name: string)
    ensures id in roles ==> RoleKindFromName(name) == roles[id]
    ensures id !in roles ==> name == ""
  {
    if id in roles then NameRoundTrip(roles[id]); RoleName(roles[id]) else ""
  }

  /** The Doctor object of the human, when the human is alive and plays the Doctor. */
  function DoctorPrev(alive: map<int, Player>, human: int): Option<int>
    reads set id | id in alive && alive[id].Doc? :: alive[id].doc
  {
    if human in alive && alive[human].Doc? then Some(alive[human].doc.prev) else None
  }

  // ---------------------------------------------------------------- the human's turn

  /**
   * `human_loop` by day: read one line and record the human's vote; nothing else changes.
   */
  method HumanDay(gs: GameState<Player>, human: int, input: seq<Line>) returns (rest: seq<Line>)
    modifies gs`dayVotes
    ensures gs.dayVotes == old(gs.dayVotes)[human := DayVote(gs.alive.Keys, human, Next(input).line)]
    ensures rest == Next(input).rest
  {
    var rd := Next(input);
    var v := Parsed(rd.line, -1);
    if v in gs.alive && v != human {
      gs.SetVote(human, v);
    } else {
      gs.SetVote(human, -1);
    }
    rest := rd.rest;
  }

  /**
   * `human_loop` by night, dispatched on the display name of the human's dealt role. `done` is
   * false when a re-prompt loop ran out of input, and then no choice is recorded.
   */
  method HumanNight(gs: GameState<Player>, human: int, input: seq<Line>) returns (done: bool, rest: seq<Line>)
    modifies gs`nightChoices
    ensures var role := RoleNameFor(gs.originalRoles, human);
      && (role == "Мирный" ==> done && gs.nightChoices == old(gs.nightChoices))
      && (role == "Комиссар" ==> done && gs.nightChoices == old(gs.nightChoices)[human := CommissionerChoice(gs.alive.Keys, human, Next(input).line)])
      && (role == "Доктор" ==> RecordsAccepted(old(gs.nightChoices), gs.nightChoices, human, done,
                                 FirstAccepted(input, DoctorAccepts(gs.alive.Keys, DoctorPrev(gs.alive, human)), -1)))
      && (role in {"Маньяк", "Свидетель"} ==> RecordsAccepted(old(gs.nightChoices), gs.nightChoices, human, done,
                                 FirstAccepted(input, OthersAlive(gs.alive.Keys, human), -1)))
      && (role in {"Мафия", "Бык"} ==> done && gs.nightChoices == old(gs.nightChoices)[human := MafiaChoice(gs.alive.Keys, gs.originalRoles, Next(input).line)])
      && (role !in {"Мирный", "Комиссар", "Доктор", "Маньяк", "Свидетель", "Мафия", "Бык"} ==>
            done && gs.nightChoices == old(gs.nightChoices)[human := Parsed(Next(input).line, -1)])
  {
    var role := RoleNameFor(gs.originalRoles, human);
    done, rest := true, input;
    if role == "Мирный" {
      return;
    }
    if role == "Комиссар" {
      var rd := Next(input);
      gs.SetNightChoice(human, CommissionerChoice(gs.alive.Keys, human, rd.line));
      rest := rd.rest;
      return;
    }
    if role == "Доктор" || role == "Маньяк" || role == "Свидетель" {
      var ok := if role == "Доктор" then DoctorAccepts(gs.alive.Keys, DoctorPrev(gs.alive, human)) else OthersAlive(gs.alive.Keys, human);
      var r;
      r, rest := RePrompt(input, ok);
      if r.None? {
        done := false;
        return;
      }
      gs.SetNightChoice(human, r.value);
      return;
    }
    var rd := Next(input);
    rest := rd.rest;
    if role == "Мафия" || role == "Бык" {
      gs.SetNightChoice(human, MafiaChoice(gs.alive.Keys, gs.originalRoles, rd.line));
    } else {
      gs.SetNightChoice(human, Parsed(rd.line, -1));
    }
  }

  /** The choices after a re-prompt loop: the accepted id recorded for the human, or nothing when input ran out. */
  predicate RecordsAccepted(before: map<int, int>, after: map<int, int>, human: int, done: bool, accepted: Option<int>) {
    && done == accepted.Some?
    && after == (if accepted.Some? then before[human := accepted.value] else before)
  }

  /**
   * What the human can record by night: the Doctor an alive id other than last night's while
   * others live, the Maniac and the Witness an alive id other than their own, the Mafia and the
   * Bull an alive id not reported as mafia or -1.
   */
  lemma NightChoicesValid(alive: set<int>, roles: map<int, RoleKind>, human: int, prev: Option<int>, input: seq<Line>)
    ensures var r := FirstAccepted(input, DoctorAccepts(alive, prev), -1);
            r.Some? ==> r.value in alive && !(prev.Some? && r.value == prev.value && |alive| > 1)
    ensures var r := FirstAccepted(input, OthersAlive(alive, human), -1);
            r.Some? ==> r.value in alive && r.value != human
    ensures var v := MafiaChoice(alive, roles, Next(input).line);
            v == -1 || (v in alive && HV.AlignmentOf(roles, v) != HV.Mafia)
  {
  }
}
