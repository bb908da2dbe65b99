/**
 * The players (mafia/include/roles.hpp, mafia/src/roles.cpp): one class per role with the
 * fields the role updates, the night actions and day votes of the roles whose members are
 * defined, and dispatch through the `Player` variant that stands for `smart_ptr<PlayerBase>`.
 *
 * Random choices are free choices from the list the source draws from.
 */
module Roles {
  import opened RoleTraits
  import opened OrderedIds
  import opened GameStates
  import HV = HostView

  /** `choose_random(v)`: some element of `v`, or `int{}` (that is 0) when `v` is empty. */
  method ChooseRandom(v: seq<int>) returns (r: int)
    ensures |v| == 0 ==> r == 0
    ensures |v| > 0 ==> r in v
  {
    if |v| == 0 {
      r := 0;
    } else {
      var i :| 0 <= i < |v|;
      r := v[i];
    }
  }

  /** A target drawn from `pool`: -1 when the pool is empty, otherwise a member of it. */
  predicate DrawnFrom(pool: set<int>, t: int) {
    (pool == {} ==> t == -1) && (pool != {} ==> t in pool)
  }

  /** The players other than `id` that the host does not report as mafia: the mafia's prey. */
  function Prey(alive: set<int>, roles: map<int, RoleKind>, id: int): set<int> {
    set x | x in alive && x != id && HV.AlignmentOf(roles, x) != HV.Mafia
  }

  /** `ids.empty() ? -1 : choose_random(ids)`. */
  method DrawOrPass(ids: seq<int>) returns (t: int)
    ensures |ids| == 0 ==> t == -1
    ensures |ids| > 0 ==> t in ids
  {
    if |ids| == 0 {
      t := -1;
    } else {
      t := ChooseRandom(ids);
    }
  }

  /** The day vote shared by Civilian, Mafia, Doctor and Maniac: some other alive player, or -1 if there is none. */
  method VoteOther(gs: GameState<Player>, id: int) returns (t: int)
    ensures DrawnFrom(gs.alive.Keys - {id}, t)
  {
    var ids := gs.IdsExcluding(id);
    EmptyIffNoMember(ids, gs.alive.Keys - {id});
    t := DrawOrPass(ids);
  }

  /** A sequence and a set with the same members are empty together. */
  lemma EmptyIffNoMember(xs: seq<int>, s: set<int>)
    requires forall x :: x in xs <==> x in s
    ensures |xs| == 0 <==> s == {}
  {
    if |xs| > 0 {
      var z := xs[0];
      assert z in xs;
      assert z in s;
    }
    if s != {} {
      HasMember(s);
      var y :| y in s;
      assert y in xs;
    }
  }

  class Civilian {
    var target: int

    constructor ()
      ensures target == -1
    {
      target := -1;
    }

    /** A civilian votes for some other alive player. */
    method Vote(gs: GameState<Player>, id: int)
      modifies this
      ensures DrawnFrom(gs.alive.Keys - {id}, target)
    {
      target := VoteOther(gs, id);
    }
  }

  class Mafia {
    var target: int

    constructor ()
      ensures target == -1
    {
      target := -1;
    }

    /** In the mafia phase, a mafia player picks its prey: never itself and never someone the host reports as mafia. */
    method Act(gs: GameState<Player>, id: int, mafiaPhase: bool)
      modifies this
      ensures !mafiaPhase ==> target == old(target)
      ensures mafiaPhase ==> DrawnFrom(Prey(gs.alive.Keys, gs.originalRoles, id), target)
    {
      if mafiaPhase {
        var ids := HV.MafiaTargetsFor(gs.alive.Keys, gs.originalRoles, id);
        EmptyIffNoMember(ids, Prey(gs.alive.Keys, gs.originalRoles, id));
        target := DrawOrPass(ids);
      }
    }

    /** A mafia player votes for some other alive player. */
    method Vote(gs: GameState<Player>, id: int)
      modifies this
      ensures DrawnFrom(gs.alive.Keys - {id}, target)
    {
      target := VoteOther(gs, id);
    }
  }

  /** The Bull's state; its members are declared but not defined. */
  class Bull {
    var target: int

    constructor ()
      ensures target == -1
    {
      target := -1;
    }
  }

  /** The Commissioner's plan for the night. */
  datatype NightDecision = NoDecision | Inspect | Shoot

  /** What a recorded night choice asks of a Commissioner. */
  datatype Order = NoOrder | InspectOrder(who: int) | ShootOrder(who: int)

  /** How `set_target` reads a night choice: -1 passes, `t <= -2` shoots `-(t + 1)`, `t >= 0` inspects `t`. */
  function DecodeOrder(t: int): (o: Order)
    ensures o.ShootOrder? ==> o.who >= 1
    ensures o.InspectOrder? ==> o.who >= 0
  {
    if t == -1 then NoOrder
    else if t <= -2 then ShootOrder(-(t + 1))
    else InspectOrder(t)
  }

  /** How a night choice is written: the inverse of `DecodeOrder`. */
  function EncodeOrder(o: Order): int {
    match o
    case NoOrder => -1
    case InspectOrder(who) => who
    case ShootOrder(who) => -(who + 1)
  }

  /** Every recorded night choice is the encoding of the order it decodes to. */
  lemma EncodeDecode(t: int)
    ensures EncodeOrder(DecodeOrder(t)) == t
  {
  }

  /** Every order the decoder can produce survives encoding and decoding. */
  lemma DecodeEncode(o: Order)
    requires o.ShootOrder? ==> o.who >= 1
    requires o.InspectOrder? ==> o.who >= 0
    ensures DecodeOrder(EncodeOrder(o)) == o
  {
  }

  class Commissioner {
    var target: int
    var killTarget: int
    var inspected: int
    var shotTarget: int
    var knownCiv: set<int>
    var nightDecision: NightDecision

    constructor ()
      ensures target == -1 && killTarget == -1 && inspected == -1 && shotTarget == -1
      ensures knownCiv == {} && nightDecision == NoDecision
    {
      target := -1;
      killTarget := -1;
      inspected := -1;
      shotTarget := -1;
      knownCiv := {};
      nightDecision := NoDecision;
    }

    /** `night_action_target()`: the inspected id in state Inspect, -1 in every other state. */
    function NightActionTarget(): (r: int)
      reads this
      ensures nightDecision != Inspect ==> r == -1
      ensures nightDecision == Inspect ==> r == inspected
    {
      if nightDecision == Inspect then inspected else -1
    }

    /** `night_shot_target()`: the shot id in state Shoot, -1 in every other state. */
    function NightShotTarget(): (r: int)
      reads this
      ensures nightDecision != Shoot ==> r == -1
      ensures nightDecision == Shoot ==> r == shotTarget
    {
      if nightDecision == Shoot then shotTarget else -1
    }

    /** The order the Commissioner holds for this night. */
    function CurrentOrder(): Order
      reads this
    {
      match nightDecision
      case NoDecision => NoOrder
      case Inspect => InspectOrder(inspected)
      case Shoot => ShootOrder(shotTarget)
    }

    /**
     * The night action. Outside the mafia phase nothing happens. A kill target that is no longer
     * alive is forgotten; a live one is shot. Otherwise an alive player other than the
     * Commissioner is inspected, one not known to be civilian when there is such a player.
     */
    method Act(gs: GameState<Player>, id: int, mafiaPhase: bool)
      modifies this
      ensures target == old(target) && knownCiv == old(knownCiv)
      ensures !mafiaPhase ==>
        killTarget == old(killTarget) && inspected == old(inspected) && shotTarget == old(shotTarget) && nightDecision == old(nightDecision)
      ensures mafiaPhase && old(killTarget) != -1 && old(killTarget) in gs.alive ==>
        killTarget == old(killTarget) && nightDecision == Shoot && shotTarget == killTarget && inspected == -1
      ensures mafiaPhase && (old(killTarget) == -1 || old(killTarget) !in gs.alive) ==>
        killTarget == -1 && shotTarget == -1 && nightDecision != Shoot
      ensures mafiaPhase && (old(killTarget) == -1 || old(killTarget) !in gs.alive) ==>
        (nightDecision == NoDecision <==> gs.alive.Keys - {id} == {})
        && (nightDecision == NoDecision ==> inspected == -1)
        && (nightDecision == Inspect ==> inspected in gs.alive && inspected != id)
        && (nightDecision == Inspect && gs.alive.Keys - {id} - knownCiv != {} ==> inspected !in knownCiv)
    {
      if !mafiaPhase {
        return;
      }
      if killTarget != -1 && killTarget !in gs.alive {
        killTarget := -1;
      }
      nightDecision := NoDecision;
      inspected := -1;
      shotTarget := -1;
      if killTarget != -1 {
        nightDecision := Shoot;
        shotTarget := killTarget;
        return;
      }
      var found, who := ChooseInspection(gs, id, knownCiv);
      if found {
        nightDecision := Inspect;
        inspected := who;
      }
    }

    /** The day vote: the kill target when there is one, the previous target otherwise. */
    method Vote()
      modifies this`target
      ensures target == if killTarget != -1 then killTarget else old(target)
    {
      if killTarget != -1 {
        target := killTarget;
      }
    }

    /** `set_target(t)`: take the order that `t` encodes; a shot also becomes the day target. */
    method SetTarget(t: int)
      modifies this`nightDecision, this`inspected, this`shotTarget, this`target
      ensures CurrentOrder() == DecodeOrder(t)
      ensures DecodeOrder(t).NoOrder? ==> NightActionTarget() == -1 && NightShotTarget() == -1
      ensures DecodeOrder(t).ShootOrder? ==> NightShotTarget() == target == DecodeOrder(t).who && NightActionTarget() == -1
      ensures DecodeOrder(t).InspectOrder? ==> NightActionTarget() == DecodeOrder(t).who && NightShotTarget() == -1
      ensures !DecodeOrder(t).ShootOrder? ==> target == old(target)
      ensures nightDecision != Inspect ==> inspected == -1
      ensures nightDecision != Shoot ==> shotTarget == -1
    {
      nightDecision := NoDecision;
      inspected := -1;
      shotTarget := -1;
      if t == -1 {
        return;
      }
      if t <= -2 {
        nightDecision := Shoot;
        shotTarget := -(t + 1);
        target := shotTarget;
        return;
      }
      nightDecision := Inspect;
      inspected := t;
    }

    /** `set_kill(t)`. */
    method SetKill(t: int)
      modifies this`killTarget
      ensures killTarget == t
    {
      killTarget := t;
    }

    /**
     * Learn the result of the night's inspection: an id the host reports as mafia becomes the
     * kill target and is no longer known as civilian; a civilian or maniac report makes it a
     * known civilian; an unknown report, or a night without an inspection, changes nothing.
     */
    method ApplyInspectionResult(roles: map<int, RoleKind>)
      modifies this`killTarget, this`knownCiv
      ensures !(nightDecision == Inspect && inspected != -1) ==> killTarget == old(killTarget) && knownCiv == old(knownCiv)
      ensures nightDecision == Inspect && inspected != -1 ==>
        match HV.AlignmentOf(roles, inspected)
        case Mafia => killTarget == inspected && knownCiv == old(knownCiv) - {inspected}
        case Unknown => killTarget == old(killTarget) && knownCiv == old(knownCiv)
        case _ => killTarget == old(killTarget) && knownCiv == old(knownCiv) + {inspected}
    {
      if nightDecision != Inspect || inspected == -1 {
        return;
      }
      var align := HV.AlignmentOf(roles, inspected);
      if align == HV.Mafia {
        killTarget := inspected;
        knownCiv := knownCiv - {inspected};
      } else if align == HV.Unknown {
      } else {
        knownCiv := knownCiv + {inspected};
      }
    }
  }

  /**
   * The Commissioner's pick of whom to inspect: some alive player other than `id`, preferring
   * those not in `known`; `found` is false exactly when nobody else is alive.
   */
  method ChooseInspection(gs: GameState<Player>, id: int, known: set<int>) returns (found: bool, who: int)
    ensures found <==> gs.alive.Keys - {id} != {}
    ensures found ==> who in gs.alive && who != id
    ensures found && gs.alive.Keys - {id} - known != {} ==> who !in known
  {
    var all := gs.IdsExcluding(id);
    var ids := RemoveKnown(all, known);
    EmptyIffNoMember(ids, gs.alive.Keys - {id} - known);
    EmptyIffNoMember(all, gs.alive.Keys - {id});
    if |ids| == 0 {
      ids := all;
    }
    found := |ids| > 0;
    who := -1;
    if found {
      who := ChooseRandom(ids);
    }
  }

  /** At most one of the two night targets of a Commissioner is set. */
  lemma AtMostOneNightTarget(c: Commissioner)
    ensures c.NightActionTarget() == -1 || c.NightShotTarget() == -1
  {
  }

  /** `ids` without the known civilians, order kept (the erase/remove_if filter). */
  function RemoveKnown(ids: seq<int>, known: set<int>): (r: seq<int>)
    ensures forall x :: x in r <==> x in ids && x !in known
  {
    if ids == [] then []
    else if ids[0] in known then RemoveKnown(ids[1..], known)
    else [ids[0]] + RemoveKnown(ids[1..], known)
  }

  class Doctor {
    var target: int
    var prev: int

    constructor ()
      ensures target == -1 && prev == -1
    {
      target := -1;
      prev := -1;
    }

    /**
     * The night heal: some alive player, never the one healed the night before while more than
     * one player is alive; it becomes both the target and the new `prev`. With nobody alive
     * nothing changes.
     */
    method Act(gs: GameState<Player>)
      modifies this
      ensures gs.alive == map[] ==> target == old(target) && prev == old(prev)
      ensures gs.alive != map[] ==> target == prev && target in gs.alive
      ensures |gs.alive| > 1 ==> target != old(prev)
    {
      var ids := gs.Ids();
      EmptyIffNoMember(ids, gs.alive.Keys);
      if |ids| > 0 {
        assert ids[0] in ids;
        if |ids| > 1 {
          assert ids[1] in ids && ids[0] < ids[1];
          assert ids[0] != prev || ids[1] != prev;
        }
        assert |ids| == |gs.alive.Keys| == |gs.alive|;
        var who :| who in ids && (who != prev || |ids| == 1);
        target := who;
        prev := who;
      } else {
        assert gs.alive.Keys == {};
      }
    }

    /** A doctor votes for some other alive player. */
    method Vote(gs: GameState<Player>, id: int)
      modifies this`target
      ensures DrawnFrom(gs.alive.Keys - {id}, target)
    {
      target := VoteOther(gs, id);
    }
  }

  class Maniac {
    var target: int

    constructor ()
      ensures target == -1
    {
      target := -1;
    }

    /** Every night (whatever the phase) the maniac picks some other alive player. */
    method Act(gs: GameState<Player>, id: int)
      modifies this
      ensures DrawnFrom(gs.alive.Keys - {id}, target)
    {
      target := VoteOther(gs, id);
    }

    /** A maniac votes for some other alive player. */
    method Vote(gs: GameState<Player>, id: int)
      modifies this
      ensures DrawnFrom(gs.alive.Keys - {id}, target)
    {
      target := VoteOther(gs, id);
    }
  }

  /** The Witness's state; its members are declared but not defined. */
  class Witness {
    var observed: int
    var voteChoice: int

    constructor ()
      ensures observed == -1 && voteChoice == -1
    {
      observed := -1;
      voteChoice := -1;
    }
  }

  /** The Ninja's state; its members are declared but not defined. */
  class Ninja {
    var target: int

    constructor ()
      ensures target == -1
    {
      target := -1;
    }
  }

  /** A live `smart_ptr<PlayerBase>`: which role class the player object is, and the object. */
  datatype Player =
    | Civ(civ: Civilian)
    | Maf(maf: Mafia)
    | BullP(bull: Bull)
    | Comm(comm: Commissioner)
    | Doc(doc: Doctor)
    | Man(man: Maniac)
    | Wit(wit: Witness)
    | Nin(nin: Ninja)

  /** The object behind a player. */
  function Obj(p: Player): object {
    match p
    case Civ(c) => c
    case Maf(m) => m
    case BullP(b) => b
    case Comm(c) => c
    case Doc(d) => d
    case Man(m) => m
    case Wit(w) => w
    case Nin(n) => n
  }

  /** The kind of a player's class. */
  function Kind(p: Player): (k: RoleKind)
    ensures k != UnknownRole
  {
    match p
    case Civ(_) => CivilianRole
    case Maf(_) => MafiaRole
    case BullP(_) => BullRole
    case Comm(_) => CommissionerRole
    case Doc(_) => DoctorRole
    case Man(_) => ManiacRole
    case Wit(_) => WitnessRole
    case Nin(_) => NinjaRole
  }

  /** `role()`: the display name of the player's class. */
  function Role(p: Player): (name: string)
    ensures RoleKindFromName(name) == Kind(p)
  {
    NameRoundTrip(Kind(p));
    RoleName(Kind(p))
  }

  /** The roles whose `act`, `vote`, `set_target` and `get_target` are defined. */
  predicate Defined(p: Player) {
    p.Civ? || p.Maf? || p.Comm? || p.Doc? || p.Man?
  }

  /** `get_target()`. */
  function GetTarget(p: Player): int
    reads Obj(p)
    requires Defined(p)
  {
    match p
    case Civ(c) => c.target
    case Maf(m) => m.target
    case Comm(c) => c.target
    case Doc(d) => d.target
    case Man(m) => m.target
  }

  /** `night_action_target()`: the Commissioner's own rule, `get_target()` for the others. */
  function NightActionTarget(p: Player): (r: int)
    reads Obj(p)
    requires Defined(p)
    ensures !p.Comm? ==> r == GetTarget(p)
    ensures p.Comm? && p.comm.nightDecision != Inspect ==> r == -1
  {
    if p.Comm? then p.comm.NightActionTarget() else GetTarget(p)
  }

  /** `night_shot_target()`: the Commissioner's own rule, -1 for every other role. */
  function NightShotTarget(p: Player): (r: int)
    reads Obj(p)
    ensures !p.Comm? ==> r == -1
    ensures p.Comm? && p.comm.nightDecision != Shoot ==> r == -1
  {
    if p.Comm? then p.comm.NightShotTarget() else -1
  }

  /** `set_target(t)`: the Commissioner decodes it, the others store it. */
  method SetTarget(p: Player, t: int)
    requires Defined(p)
    modifies Obj(p)
    ensures !p.Comm? ==> GetTarget(p) == t
    ensures p.Doc? ==> p.doc.prev == old(p.doc.prev)
    ensures p.Comm? ==> p.comm.CurrentOrder() == DecodeOrder(t)
    ensures p.Comm? ==> p.comm.killTarget == old(p.comm.killTarget) && p.comm.knownCiv == old(p.comm.knownCiv)
    ensures p.Comm? && DecodeOrder(t).ShootOrder? ==> p.comm.target == DecodeOrder(t).who
    ensures p.Comm? && !DecodeOrder(t).ShootOrder? ==> p.comm.target == old(p.comm.target)
    ensures p.Comm? ==>
      (p.comm.nightDecision != Inspect ==> p.comm.inspected == -1)
      && (p.comm.nightDecision != Shoot ==> p.comm.shotTarget == -1)
  {
    match p
    case Civ(c) => c.target := t;
    case Maf(m) => m.target := t;
    case Comm(c) => c.SetTarget(t);
    case Doc(d) => d.target := t;
    case Man(m) => m.target := t;
  }

  /** `set_kill(t)`: only the Commissioner keeps it; the default does nothing. */
  method SetKill(p: Player, t: int)
    modifies Obj(p)
    ensures p.Comm? ==> p.comm.killTarget == t
    ensures p.Comm? ==>
      p.comm.target == old(p.comm.target) && p.comm.inspected == old(p.comm.inspected)
      && p.comm.shotTarget == old(p.comm.shotTarget) && p.comm.knownCiv == old(p.comm.knownCiv)
      && p.comm.nightDecision == old(p.comm.nightDecision)
    ensures !p.Comm? ==> unchanged(Obj(p))
  {
    if p.Comm? {
      p.comm.SetKill(t);
    }
  }

  /** `act(...)`: the night action of a player; a civilian sleeps. */
  method Act(p: Player, gs: GameState<Player>, id: int, mafiaPhase: bool)
    requires Defined(p)
    modifies Obj(p)
    ensures p.Civ? ==> unchanged(Obj(p))
    ensures p.Maf? && !mafiaPhase ==> p.maf.target == old(p.maf.target)
    ensures p.Maf? && mafiaPhase ==> DrawnFrom(Prey(gs.alive.Keys, gs.originalRoles, id), p.maf.target)
    ensures p.Comm? ==> p.comm.target == old(p.comm.target) && p.comm.knownCiv == old(p.comm.knownCiv)
    ensures p.Comm? && !mafiaPhase ==>
      p.comm.killTarget == old(p.comm.killTarget) && p.comm.inspected == old(p.comm.inspected)
      && p.comm.shotTarget == old(p.comm.shotTarget) && p.comm.nightDecision == old(p.comm.nightDecision)
    ensures p.Comm? && mafiaPhase && old(p.comm.killTarget) != -1 && old(p.comm.killTarget) in gs.alive ==>
      p.comm.killTarget == old(p.comm.killTarget) && p.comm.nightDecision == Shoot
      && p.comm.shotTarget == p.comm.killTarget && p.comm.inspected == -1
    ensures p.Comm? && mafiaPhase && (old(p.comm.killTarget) == -1 || old(p.comm.killTarget) !in gs.alive) ==>
      p.comm.killTarget == -1 && p.comm.shotTarget == -1 && p.comm.nightDecision != Shoot
      && (p.comm.nightDecision == NoDecision <==> gs.alive.Keys - {id} == {})
      && (p.comm.nightDecision == NoDecision ==> p.comm.inspected == -1)
      && (p.comm.nightDecision == Inspect ==> p.comm.inspected in gs.alive && p.comm.inspected != id)
      && (p.comm.nightDecision == Inspect && gs.alive.Keys - {id} - p.comm.knownCiv != {} ==> p.comm.inspected !in p.comm.knownCiv)
    ensures p.Doc? && gs.alive == map[] ==> p.doc.target == old(p.doc.target) && p.doc.prev == old(p.doc.prev)
    ensures p.Doc? && gs.alive != map[] ==> p.doc.target == p.doc.prev && p.doc.target in gs.alive
    ensures p.Doc? && |gs.alive| > 1 ==> p.doc.target != old(p.doc.prev)
    ensures p.Man? ==> DrawnFrom(gs.alive.Keys - {id}, p.man.target)
  {
    match p
    case Civ(_) =>
    case Maf(m) => m.Act(gs, id, mafiaPhase);
    case Comm(c) => c.Act(gs, id, mafiaPhase);
    case Doc(d) => d.Act(gs);
    case Man(m) => m.Act(gs, id);
  }

  /** `vote(...)`: the day vote of a player, left in its target. */
  method Vote(p: Player, gs: GameState<Player>, id: int)
    requires Defined(p)
    modifies Obj(p)
    ensures !p.Comm? ==> DrawnFrom(gs.alive.Keys - {id}, GetTarget(p))
    ensures p.Doc? ==> p.doc.prev == old(p.doc.prev)
    ensures p.Comm? ==> p.comm.target == if p.comm.killTarget != -1 then p.comm.killTarget else old(p.comm.target)
    ensures p.Comm? ==>
      p.comm.killTarget == old(p.comm.killTarget) && p.comm.inspected == old(p.comm.inspected)
      && p.comm.shotTarget == old(p.comm.shotTarget) && p.comm.knownCiv == old(p.comm.knownCiv)
      && p.comm.nightDecision == old(p.comm.nightDecision)
  {
    match p
    case Civ(c) => c.Vote(gs, id);
    case Maf(m) => m.Vote(gs, id);
    case Comm(c) => c.Vote();
    case Doc(d) => d.Vote(gs, id);
    case Man(m) => m.Vote(gs, id);
  }
}
