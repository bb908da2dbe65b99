/**
 * The shared game state of mafia/include/game_state.hpp: who is alive, the role each player
 * was dealt, the day votes and night choices, and the queries every role uses.
 *
 * The class is generic in the player type `P` (in the source `alive` maps ids to
 * `smart_ptr<PlayerBase>` and PlayerBase is only forward-declared here), so this module does
 * not depend on the roles.
 */
module GameStates {
  import opened RoleTraits
  import opened OrderedIds

  /** Alive ids whose dealt role is on the mafia's side. */
  function MafiaIds(alive: set<int>, roles: map<int, RoleKind>): set<int> {
    set id | id in alive && id in roles && IsMafiaAligned(roles[id])
  }

  /** Alive ids whose dealt role is the maniac. */
  function ManiacIds(alive: set<int>, roles: map<int, RoleKind>): set<int> {
    set id | id in alive && id in roles && IsManiac(roles[id])
  }

  /** Alive ids whose dealt role is on the civilians' side. */
  function CivilianIds(alive: set<int>, roles: map<int, RoleKind>): set<int> {
    set id | id in alive && id in roles && AlignmentFor(roles[id]) == Civilian
  }

  /** A uniformly random element of `ids`, or -1 for an empty list (`pick_random`; the generator is a free choice here). */
  method PickRandom(ids: seq<int>) returns (r: int)
    ensures |ids| == 0 ==> r == -1
    ensures |ids| > 0 ==> r in ids
  {
    if |ids| == 0 {
      r := -1;
    } else {
      var i :| 0 <= i < |ids|;
      r := ids[i];
    }
  }

  /** An alive player without a dealt role, or with the Unknown role, is counted by none of the three counters. */
  lemma UncountedPlayer(alive: set<int>, roles: map<int, RoleKind>, id: int)
    requires id in alive && (id !in roles || roles[id] == UnknownRole)
    ensures id !in MafiaIds(alive, roles) && id !in ManiacIds(alive, roles) && id !in CivilianIds(alive, roles)
  {
  }

  /** A subset is no larger than its superset. */
  lemma {:induction false} SubsetCard(a: set<int>, b: set<int>)
    requires a <= b
    ensures |a| <= |b|
    decreases |b|
  {
    if b - a != {} {
      HasMember(b - a);
      var x :| x in b - a;
      assert a <= b - {x};
      SubsetCard(a, b - {x});
      assert |b - {x}| + 1 == |b|;
    } else {
      forall x | x in b
        ensures x in a
      {
        assert x !in b - a;
      }
      assert a == b;
    }
  }

  /** The three factions never count more players than are alive. */
  lemma CountsBounded(alive: set<int>, roles: map<int, RoleKind>)
    ensures |MafiaIds(alive, roles)| + |ManiacIds(alive, roles)| + |CivilianIds(alive, roles)| <= |alive|
  {
    var m, n, c := MafiaIds(alive, roles), ManiacIds(alive, roles), CivilianIds(alive, roles);
    forall x | x in m + n
      ensures x !in c && (x in m ==> x !in n)
    {
      assert x in alive && x in roles;
      AlignmentPredicates(roles[x]);
    }
    assert m * n == {};
    assert (m + n) * c == {};
    assert |m + n| == |m| + |n|;
    assert |m + n + c| == |m + n| + |c|;
    SubsetCard(m + n + c, alive);
  }

  class GameState<P> {
    var humanId: int
    var alive: map<int, P>
    var originalRoles: map<int, RoleKind>
    var round: int
    var k: int
    var announceOpen: bool
    var humanEnabled: bool
    var dayVotes: map<int, int>
    var nightChoices: map<int, int>

    /** The field initialisers: no players, no human (-1), round 1, k = 4, open announcements. */
    constructor ()
      ensures humanId == -1 && alive == map[] && originalRoles == map[]
      ensures round == 1 && k == 4 && announceOpen && !humanEnabled
      ensures dayVotes == map[] && nightChoices == map[]
    {
      humanId := -1;
      alive := map[];
      originalRoles := map[];
      round := 1;
      k := 4;
      announceOpen := true;
      humanEnabled := false;
      dayVotes := map[];
      nightChoices := map[];
    }

    /** Record that `from` votes for `to` (-1: abstains); nothing else changes. */
    method SetVote(from: int, to: int)
      modifies this`dayVotes
      ensures dayVotes == old(dayVotes)[from := to]
      ensures forall id :: id in old(dayVotes) && id != from ==> id in dayVotes && dayVotes[id] == old(dayVotes)[id]
    {
      dayVotes := dayVotes[from := to];
    }

    /** Record the night choice of `from` (-1: passes); nothing else changes. */
    method SetNightChoice(from: int, to: int)
      modifies this`nightChoices
      ensures nightChoices == old(nightChoices)[from := to]
      ensures forall id :: id in old(nightChoices) && id != from ==> id in nightChoices && nightChoices[id] == old(nightChoices)[id]
    {
      nightChoices := nightChoices[from := to];
    }

    /** `ids()`: the alive ids in ascending order. */
    function Ids(): (r: seq<int>)
      reads this
      ensures Ascending(r)
      ensures forall x :: x in r <==> x in alive
    {
      Sorted(alive.Keys)
    }

    /** `ids_excluding(self)`: the alive ids without `self`, which are exactly the ascending ids of the other players. */
    function IdsExcluding(self: int): (r: seq<int>)
      reads this
      ensures r == Sorted(alive.Keys - {self})
      ensures forall x :: x in r <==> x in alive && x != self
    {
      SortedWithout(alive.Keys, self);
      Without(Ids(), self)
    }

    function MafiaCount(): nat
      reads this
    {
      |MafiaIds(alive.Keys, originalRoles)|
    }

    function ManiacCount(): nat
      reads this
    {
      |ManiacIds(alive.Keys, originalRoles)|
    }

    function CiviliansCount(): nat
      reads this
    {
      |CivilianIds(alive.Keys, originalRoles)|
    }
  }
}
