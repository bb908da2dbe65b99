/**
 * The host's rule engine (mafia/src/host.cpp): dealing the original roles, the day tally and
 * eviction, the night kills and saves, the mafia's consensus on one target, and the end of
 * the game.
 */
module Hosts {
  import opened Wrappers
  import opened RoleTraits
  import opened OrderedIds
  import opened GameStates
  import opened Roles
  import HV = HostView

  // ---------------------------------------------------------------- day

  /** The votes cast, voter by voter in ascending voter order. */
  function Ballots(votes: map<int, int>): (b: seq<int>)
    ensures |b| == |votes|
  {
    Gather(Sorted(votes.Keys), votes)
  }

  /** The values of `votes` at the keys `ks`, in order. */
  function Gather(ks: seq<int>, votes: map<int, int>): (b: seq<int>)
    requires forall i :: 0 <= i < |ks| ==> ks[i] in votes
    ensures |b| == |ks|
    ensures forall i :: 0 <= i < |ks| ==> b[i] == votes[ks[i]]
  {
    if ks == [] then [] else Gather(ks[..|ks| - 1], votes) + [votes[ks[|ks| - 1]]]
  }

  /** A vote appears among the ballots exactly when some voter cast it. */
  lemma BallotCast(votes: map<int, int>, t: int)
    ensures t in Ballots(votes) <==> exists f :: f in votes && votes[f] == t
  {
    var ks, b := Sorted(votes.Keys), Ballots(votes);
    if t in b {
      var i :| 0 <= i < |b| && b[i] == t;
      assert ks[i] in ks;
      assert ks[i] in votes && votes[ks[i]] == t;
    }
    if exists f :: f in votes && votes[f] == t {
      var f :| f in votes && votes[f] == t;
      assert f in ks;
      var i :| 0 <= i < |ks| && ks[i] == f;
      assert b[i] == t;
    }
  }

  /** The number of votes cast for `t`. */
  function VotesFor(votes: map<int, int>, t: int): nat {
    multiset(Ballots(votes))[t]
  }

  /**
   * `v` is the player evicted by `votes`: a real id (-1 is an abstention) with at least one vote,
   * no other id has more votes, and every smaller id has fewer (ties go to the smallest id).
   */
  ghost predicate IsEvicted(votes: map<int, int>, v: int) {
    && v != -1
    && VotesFor(votes, v) > 0
    && (forall t :: t != -1 ==> VotesFor(votes, t) <= VotesFor(votes, v))
    && (forall t :: t != -1 && t < v ==> VotesFor(votes, t) < VotesFor(votes, v))
  }

  /** At most one player is evicted by any set of votes. */
  lemma EvictedUnique(votes: map<int, int>, a: int, b: int)
    requires IsEvicted(votes, a) && IsEvicted(votes, b)
    ensures a == b
  {
  }

  /** The tally `votes[to]++` over the ballots, abstentions (-1) skipped. */
  method Tally(b: seq<int>) returns (tally: map<int, int>)
    ensures forall t :: t in tally <==> t != -1 && multiset(b)[t] > 0
    ensures forall t :: t in tally ==> tally[t] == multiset(b)[t]
  {
    tally := map[];
    var i := 0;
    while i < |b|
      invariant 0 <= i <= |b|
      invariant forall t :: t in tally <==> t != -1 && multiset(b[..i])[t] > 0
      invariant forall t :: t in tally ==> tally[t] == multiset(b[..i])[t]
    {
      var to := b[i];
      assert b[..i + 1] == b[..i] + [to];
      if to != -1 {
        tally := tally[to := (if to in tally then tally[to] else 0) + 1];
      }
      i := i + 1;
    }
    assert b[..|b|] == b;
  }

  /**
   * The day's outcome: nobody when every vote is an abstention, otherwise the most-voted id,
   * the smallest one on a tie.
   */
  method MostVoted(votes: map<int, int>) returns (victim: Option<int>)
    ensures victim.None? <==> forall f :: f in votes ==> votes[f] == -1
    ensures victim.Some? ==> IsEvicted(votes, victim.value)
  {
    var b := Ballots(votes);
    var tally := Tally(b);
    assert forall t :: VotesFor(votes, t) == multiset(b)[t];
    forall f | f in votes
      ensures votes[f] != -1 ==> votes[f] in tally
    {
      BallotCast(votes, votes[f]);
    }
    if tally.Keys == {} {
      victim := None;
      return;
    }
    var best := FirstMax(tally);
    forall t | t != -1
      ensures VotesFor(votes, t) <= VotesFor(votes, best)
      ensures t < best ==> VotesFor(votes, t) < VotesFor(votes, best)
    {
      if t !in tally {
        assert VotesFor(votes, t) == 0;
      }
    }
    victim := Some(best);
    assert tally[best] == VotesFor(votes, best);
    BallotCast(votes, best);
  }

  /**
   * `std::max_element` over the tally in key order with "fewer votes" as the comparison: the
   * first key with the highest count.
   */
  method FirstMax(tally: map<int, int>) returns (best: int)
    requires tally.Keys != {}
    ensures best in tally
    ensures forall x :: x in tally ==> tally[x] <= tally[best]
    ensures forall x :: x in tally && x < best ==> tally[x] < tally[best]
  {
    var tks := AscendingIds(tally.Keys);
    EmptyTogetherSet(tks, tally.Keys);
    var j := 1;
    best := tks[0];
    ghost var bi := 0;
    while j < |tks|
      invariant 1 <= j <= |tks|
      invariant 0 <= bi < j && best == tks[bi]
      invariant forall k :: 0 <= k < j ==> tally[tks[k]] <= tally[best]
      invariant forall k :: 0 <= k < j && tks[k] < best ==> tally[tks[k]] < tally[best]
    {
      var x := tks[j];
      assert tks[bi] < tks[j];
      if tally[best] < tally[x] {
        best, bi := x, j;
      }
      j := j + 1;
    }
    forall x | x in tally
      ensures tally[x] <= tally[best]
      ensures x < best ==> tally[x] < tally[best]
    {
      assert x in tks;
      var k :| 0 <= k < |tks| && tks[k] == x;
    }
  }

  /** An ascending listing of a non-empty set is non-empty. */
  lemma EmptyTogetherSet(xs: seq<int>, s: set<int>)
    requires forall x :: x in xs <==> x in s
    requires s != {}
    ensures |xs| > 0
  {
    HasMember(s);
    var y :| y in s;
    assert y in xs;
  }

  // ---------------------------------------------------------------- night

  /** What the host gathers from the alive players before resolving the night. */
  datatype Night = Night(mafia: int, maniac: int, doctor: int, inspect: int, shot: int, commissioner: Option<int>)

  /** The objects of the players in `alive`. */
  function Objects(alive: map<int, Player>): set<object> {
    set id | id in alive :: Obj(alive[id])
  }

  /** Every alive player's object is among the objects of `alive`. */
  lemma ObjIn(alive: map<int, Player>, id: int)
    requires id in alive
    ensures Obj(alive[id]) in Objects(alive)
  {
  }

  /**
   * The mafia's target: the target of the first Mafia-class player, in the order of `ids`,
   * whose target is set; -1 when none is.
   */
  function FirstMafiaTarget(ids: seq<int>, alive: map<int, Player>): int
    requires forall i :: 0 <= i < |ids| ==> ids[i] in alive
    reads Objects(alive)
  {
    if ids == [] then -1
    else
      var n := |ids| - 1;
      var t := FirstMafiaTarget(ids[..n], alive);
      ObjIn(alive, ids[n]);
      var p := alive[ids[n]];
      if t != -1 then t else if p.Maf? then p.maf.target else -1
  }

  /**
   * The gathered mafia target is set exactly by the first Mafia-class player whose target is
   * set; it is -1 exactly when no Mafia-class player has one.
   */
  lemma {:induction false} FirstMafiaTargetIsFirst(ids: seq<int>, alive: map<int, Player>)
    requires forall i :: 0 <= i < |ids| ==> ids[i] in alive
    ensures var t := FirstMafiaTarget(ids, alive);
      && (t != -1 ==> exists j :: 0 <= j < |ids| && alive[ids[j]].Maf? && alive[ids[j]].maf.target == t
                                 && forall i :: 0 <= i < j && alive[ids[i]].Maf? ==> alive[ids[i]].maf.target == -1)
      && (t == -1 <==> forall i :: 0 <= i < |ids| && alive[ids[i]].Maf? ==> alive[ids[i]].maf.target == -1)
  {
    if ids != [] {
      var n := |ids| - 1;
      var pre := ids[..n];
      assert forall i :: 0 <= i < n ==> ids[i] == pre[i];
      FirstMafiaTargetIsFirst(pre, alive);
      var t := FirstMafiaTarget(pre, alive);
      if t != -1 {
        var j :| 0 <= j < |pre| && alive[pre[j]].Maf? && alive[pre[j]].maf.target == t
                 && forall i :: 0 <= i < j && alive[pre[i]].Maf? ==> alive[pre[i]].maf.target == -1;
        assert ids[j] == pre[j];
      }
    }
  }

  /** The last id in `ids` whose player is of kind `kind`. */
  function LastOfKind(ids: seq<int>, alive: map<int, Player>, kind: RoleKind): (r: Option<int>)
    requires forall i :: 0 <= i < |ids| ==> ids[i] in alive
    ensures r.Some? ==> r.value in alive && Kind(alive[r.value]) == kind
  {
    if ids == [] then None
    else
      var n := |ids| - 1;
      if Kind(alive[ids[n]]) == kind then Some(ids[n]) else LastOfKind(ids[..n], alive, kind)
  }

  /** The id found is the last one of its kind in `ids`; none is found exactly when no player there is of that kind. */
  lemma {:induction false} LastOfKindIsLast(ids: seq<int>, alive: map<int, Player>, kind: RoleKind)
    requires forall i :: 0 <= i < |ids| ==> ids[i] in alive
    ensures var r := LastOfKind(ids, alive, kind);
      && (r.Some? ==> exists j :: 0 <= j < |ids| && ids[j] == r.value && forall i :: j < i < |ids| ==> Kind(alive[ids[i]]) != kind)
      && (r.None? <==> forall i :: 0 <= i < |ids| ==> Kind(alive[ids[i]]) != kind)
  {
    if ids != [] {
      var n := |ids| - 1;
      var pre := ids[..n];
      assert forall i :: 0 <= i < n ==> ids[i] == pre[i];
      LastOfKindIsLast(pre, alive, kind);
      if Kind(alive[ids[n]]) == kind {
        assert ids[n] == LastOfKind(ids, alive, kind).value;
      } else {
        var r := LastOfKind(pre, alive, kind);
        if r.Some? {
          var j :| 0 <= j < |pre| && pre[j] == r.value && forall i :: j < i < |pre| ==> Kind(alive[pre[i]]) != kind;
          assert ids[j] == r.value;
        }
      }
    }
  }

  /** The target of the player at `who`, -1 for nobody. */
  function TargetAt(alive: map<int, Player>, who: Option<int>): int
    requires who.Some? ==> who.value in alive && Defined(alive[who.value])
    reads Objects(alive)
  {
    if who.Some? then ObjIn(alive, who.value); GetTarget(alive[who.value]) else -1
  }

  /**
   * What the host gathers at night, scanning the players at `ids` in order: the first set
   * mafia target, and the maniac's target, the doctor's target and the Commissioner's
   * inspection and shot from the last player of each of those roles.
   */
  function NightOver(ids: seq<int>, alive: map<int, Player>): (n: Night)
    requires forall i :: 0 <= i < |ids| ==> ids[i] in alive
    reads Objects(alive)
    ensures n.commissioner.Some? ==> n.commissioner.value in alive && alive[n.commissioner.value].Comm?
  {
    var man, doc, comm := LastOfKind(ids, alive, ManiacRole), LastOfKind(ids, alive, DoctorRole), LastOfKind(ids, alive, CommissionerRole);
    Night(FirstMafiaTarget(ids, alive), TargetAt(alive, man), TargetAt(alive, doc),
          if comm.Some? then ObjIn(alive, comm.value); NightActionTarget(alive[comm.value]) else -1,
          if comm.Some? then ObjIn(alive, comm.value); NightShotTarget(alive[comm.value]) else -1,
          comm)
  }

  /** The night gathered over all alive players in ascending id order. */
  function NightOf(alive: map<int, Player>): (n: Night)
    reads Objects(alive)
    ensures n.commissioner.Some? ==> n.commissioner.value in alive && alive[n.commissioner.value].Comm?
  {
    NightOver(Sorted(alive.Keys), alive)
  }

  /** A player's role name is the name of `kind` exactly when the player is of that kind. */
  lemma RoleIs(p: Player, kind: RoleKind)
    ensures Role(p) == RoleName(kind) <==> Kind(p) == kind
  {
    if Role(p) == RoleName(kind) {
      RoleNameInjective(Kind(p), kind);
    }
  }

  /** Which of the four role names the night scan compares with (Mafia, Maniac, Doctor, Commissioner) is `p`'s. */
  function NightRole(p: Player): (k: Option<RoleKind>)
    ensures k.Some? <==> Kind(p) in {MafiaRole, ManiacRole, DoctorRole, CommissionerRole}
    ensures k.Some? ==> k.value == Kind(p)
  {
    var role := Role(p);
    RoleIs(p, MafiaRole);
    RoleIs(p, ManiacRole);
    RoleIs(p, DoctorRole);
    RoleIs(p, CommissionerRole);
    if role == "Мафия" then Some(MafiaRole)
    else if role == "Маньяк" then Some(ManiacRole)
    else if role == "Доктор" then Some(DoctorRole)
    else if role == "Комиссар" then Some(CommissionerRole)
    else None
  }

  /** The scan of `resolve_night` over the players at `ids`, comparing role names. */
  method CollectNight(ids: seq<int>, alive: map<int, Player>) returns (n: Night)
    requires forall i :: 0 <= i < |ids| ==> ids[i] in alive
    ensures n == NightOver(ids, alive)
  {
    var mafia, maniac, doctor, inspect, shot := -1, -1, -1, -1, -1;
    var comm: Option<int> := None;
    var i := 0;
    while i < |ids|
      invariant 0 <= i <= |ids|
      invariant mafia == FirstMafiaTarget(ids[..i], alive)
      invariant maniac == TargetAt(alive, LastOfKind(ids[..i], alive, ManiacRole))
      invariant doctor == TargetAt(alive, LastOfKind(ids[..i], alive, DoctorRole))
      invariant comm == LastOfKind(ids[..i], alive, CommissionerRole)
      invariant comm.Some? ==> comm.value in alive && alive[comm.value].Comm?
      invariant inspect == (if comm.Some? then NightActionTarget(alive[comm.value]) else -1)
      invariant shot == (if comm.Some? then NightShotTarget(alive[comm.value]) else -1)
    {
      var id := ids[i];
      var p := alive[id];
      assert ids[..i + 1][..i] == ids[..i] && ids[..i + 1][i] == id;
      var k := NightRole(p);
      if k == Some(MafiaRole) {
        if mafia == -1 {
          mafia := GetTarget(p);
        }
      } else if k == Some(ManiacRole) {
        maniac := GetTarget(p);
      } else if k == Some(DoctorRole) {
        doctor := GetTarget(p);
      } else if k == Some(CommissionerRole) {
        inspect := NightActionTarget(p);
        shot := NightShotTarget(p);
        comm := Some(id);
      }
      i := i + 1;
    }
    assert ids[..|ids|] == ids;
    n := Night(mafia, maniac, doctor, inspect, shot, comm);
  }

  /** One application of the kill lambda: -1 is no-op, the doctor's target is saved, anyone else alive dies. */
  function Kill(alive: set<int>, vid: int, doctor: int): set<int> {
    if vid == -1 || vid == doctor then alive
    else if vid in alive then alive - {vid}
    else alive
  }

  /** The players who die in the night `n`: the three targets that are set and not healed. */
  function Victims(n: Night): set<int> {
    {n.mafia, n.maniac, n.shot} - {-1, n.doctor}
  }

  /** The three kills in their order (mafia, maniac, Commissioner) remove exactly the victims. */
  lemma KillsRemoveVictims(alive: set<int>, n: Night)
    ensures Kill(Kill(Kill(alive, n.mafia, n.doctor), n.maniac, n.doctor), n.shot, n.doctor) == alive - Victims(n)
  {
  }

  /** The set removed by one kill. */
  function Killed(vid: int, doctor: int): set<int> {
    if vid == -1 || vid == doctor then {} else {vid}
  }

  /** The same on the map of alive players: the three removals take out the victims and nobody else. */
  lemma KillsRemoveVictimsMap(alive: map<int, Player>, n: Night)
    ensures alive - Killed(n.mafia, n.doctor) - Killed(n.maniac, n.doctor) - Killed(n.shot, n.doctor) == alive - Victims(n)
  {
    var v := Victims(n);
    assert Killed(n.mafia, n.doctor) + Killed(n.maniac, n.doctor) + Killed(n.shot, n.doctor) == v;
  }

  /** At most three players die in a night; the doctor's target and every non-target survive. */
  lemma NightCasualties(alive: set<int>, n: Night)
    ensures |alive * Victims(n)| <= 3
    ensures forall id :: id in alive && (id == n.doctor || id !in {n.mafia, n.maniac, n.shot}) ==> id in alive - Victims(n)
  {
    var v := Victims(n);
    assert alive * v <= {n.mafia, n.maniac, n.shot};
    SubsetCard(alive * v, {n.mafia, n.maniac, n.shot});
    assert |{n.mafia, n.maniac, n.shot}| <= 3 by {
      var s := {n.mafia, n.maniac, n.shot};
      assert s == {n.mafia} + {n.maniac} + {n.shot};
      assert |{n.mafia} + {n.maniac}| <= 2;
    }
  }

  /** The Commissioner objects among the players. */
  function CommissionerObjects(alive: map<int, Player>): set<Commissioner> {
    set id | id in alive && alive[id].Comm? :: alive[id].comm
  }

  /** The object of an alive Commissioner is among the Commissioner objects. */
  lemma CommIn(alive: map<int, Player>, id: int)
    requires id in alive && alive[id].Comm?
    ensures alive[id].comm in CommissionerObjects(alive)
  {
  }

  /** The Mafia objects among the players. */
  function MafiaObjects(alive: map<int, Player>): set<Mafia> {
    set id | id in alive && alive[id].Maf? :: alive[id].maf
  }

  /** The object of an alive Mafia-class player is among the Mafia objects. */
  lemma MafIn(alive: map<int, Player>, id: int)
    requires id in alive && alive[id].Maf?
    ensures alive[id].maf in MafiaObjects(alive)
  {
  }

  // ---------------------------------------------------------------- mafia consensus

  /** The ids in `ks` that the host reports as mafia, order kept. */
  function MafiaOrder(ks: seq<int>, roles: map<int, RoleKind>): (r: seq<int>)
    ensures forall x :: x in r <==> x in ks && HV.AlignmentOf(roles, x) == HV.Mafia
    ensures Ascending(ks) ==> Ascending(r)
  {
    if ks == [] then []
    else
      var n := |ks| - 1;
      var rest := MafiaOrder(ks[..n], roles);
      if HV.AlignmentOf(roles, ks[n]) == HV.Mafia then
        if Ascending(ks) then
          PrefixBelow(ks, n);
          SnocAscending(rest, ks[n]);
          rest + [ks[n]]
        else
          rest + [ks[n]]
      else
        rest
  }

  /** When every player was dealt its own class's role, the ids reported as mafia are Mafia-class players. */
  lemma MafiaOrderIsMafia(ks: seq<int>, alive: map<int, Player>, roles: map<int, RoleKind>)
    requires forall id :: id in alive ==> id in roles && roles[id] == Kind(alive[id])
    requires forall x :: x in ks <==> x in alive
    ensures var r := MafiaOrder(ks, roles); forall i :: 0 <= i < |r| ==> r[i] in alive && alive[r[i]].Maf?
  {
    var r := MafiaOrder(ks, roles);
    forall i | 0 <= i < |r|
      ensures r[i] in alive && alive[r[i]].Maf?
    {
      var id := r[i];
      assert id in r;
      assert roles[id] == MafiaRole;
    }
  }

  /** The loop that collects the ids the host reports as mafia from `ks`, order kept. */
  method FilterMafia(ks: seq<int>, roles: map<int, RoleKind>) returns (ids: seq<int>)
    ensures ids == MafiaOrder(ks, roles)
  {
    ids := [];
    var i := 0;
    while i < |ks|
      invariant 0 <= i <= |ks|
      invariant ids == MafiaOrder(ks[..i], roles)
    {
      assert ks[..i + 1][..i] == ks[..i];
      if HV.AlignmentOf(roles, ks[i]) == HV.Mafia {
        ids := ids + [ks[i]];
      }
      i := i + 1;
    }
    assert ks[..|ks|] == ks;
  }

  /** The set targets (not -1) of the players at `ids`, in order. */
  function ChosenOf(ids: seq<int>, alive: map<int, Player>): (r: seq<int>)
    requires forall i :: 0 <= i < |ids| ==> ids[i] in alive && Defined(alive[ids[i]])
    reads Objects(alive)
    ensures -1 !in r
    ensures |r| <= |ids|
  {
    if ids == [] then []
    else
      var n := |ids| - 1;
      ObjIn(alive, ids[n]);
      var t := GetTarget(alive[ids[n]]);
      ChosenOf(ids[..n], alive) + (if t != -1 then [t] else [])
  }

  /** `t` is chosen at least as often as every other target. */
  ghost predicate MostChosen(chosen: seq<int>, t: int) {
    t in chosen && forall u :: multiset(chosen)[u] <= multiset(chosen)[t]
  }

  /**
   * The consensus block's choice: count every chosen target, keep those with the highest
   * count, and draw one of them.
   */
  method ConsensusTarget(chosen: seq<int>) returns (target: int)
    requires chosen != []
    ensures MostChosen(chosen, target)
  {
    var cnt, bestc, top := CountChoices(chosen);
    var candidates := TopChoices(chosen, cnt, bestc);
    ghost var k :| 0 <= k < |chosen| && chosen[k] == top;
    assert top in candidates;
    var pick :| 0 <= pick < |candidates|;
    target := candidates[pick];
    forall u
      ensures multiset(chosen)[u] <= multiset(chosen)[target]
    {
      if u !in cnt {
        assert u !in chosen;
      }
    }
  }

  /** The counting loop: how often each target was chosen, and the highest count, reached by `top`. */
  method CountChoices(chosen: seq<int>) returns (cnt: map<int, int>, bestc: int, ghost top: int)
    requires chosen != []
    ensures forall t :: t in cnt <==> t in chosen
    ensures forall t :: t in cnt ==> cnt[t] == multiset(chosen)[t] && cnt[t] <= bestc
    ensures top in cnt && cnt[top] == bestc
    ensures forall k :: 0 <= k < |chosen| ==> chosen[k] in cnt
  {
    cnt, bestc := map[], 0;
    top := chosen[0];
    var i := 0;
    while i < |chosen|
      invariant 0 <= i <= |chosen|
      invariant forall t :: t in cnt <==> t in chosen[..i]
      invariant forall t :: t in cnt ==> cnt[t] == multiset(chosen[..i])[t]
      invariant forall t :: t in cnt ==> cnt[t] <= bestc
      invariant i == 0 ==> bestc == 0
      invariant i > 0 ==> top in cnt && cnt[top] == bestc
    {
      var t := chosen[i];
      assert chosen[..i + 1] == chosen[..i] + [t];
      assert multiset(chosen[..i + 1]) == multiset(chosen[..i]) + multiset{t};
      var c := (if t in cnt then cnt[t] else 0) + 1;
      cnt := cnt[t := c];
      if c > bestc {
        bestc, top := c, t;
      }
      i := i + 1;
    }
    assert chosen[..|chosen|] == chosen;
    forall k | 0 <= k < |chosen|
      ensures chosen[k] in cnt
    {
      assert chosen[..i][k] == chosen[k];
    }
  }

  /** The choices whose count is the highest, in the order they were made. */
  method TopChoices(chosen: seq<int>, cnt: map<int, int>, bestc: int) returns (candidates: seq<int>)
    requires forall k :: 0 <= k < |chosen| ==> chosen[k] in cnt
    ensures forall x :: x in candidates ==> x in cnt && cnt[x] == bestc
    ensures forall k :: 0 <= k < |chosen| && cnt[chosen[k]] == bestc ==> chosen[k] in candidates
  {
    candidates := [];
    var j := 0;
    while j < |chosen|
      invariant 0 <= j <= |chosen|
      invariant forall x :: x in candidates ==> x in cnt && cnt[x] == bestc
      invariant forall k :: 0 <= k < j && cnt[chosen[k]] == bestc ==> chosen[k] in candidates
    {
      if cnt[chosen[j]] == bestc {
        candidates := candidates + [chosen[j]];
      }
      j := j + 1;
    }
  }

  // ---------------------------------------------------------------- end of game

  datatype Winner = CiviliansWon | MafiaWon | ManiacWon

  /** `game_over`, checked in its order: no mafia and no maniac, then mafia parity, then the maniac's duel. */
  function Verdict(mafia: nat, civilians: nat, maniacs: nat): Option<Winner> {
    if mafia == 0 && maniacs == 0 then Some(CiviliansWon)
    else if mafia >= civilians then Some(MafiaWon)
    else if maniacs == 1 && civilians == 1 && mafia == 0 then Some(ManiacWon)
    else None
  }

  /** The game is over exactly when one of the three conditions holds, whichever wins. */
  lemma VerdictIff(mafia: nat, civilians: nat, maniacs: nat)
    ensures Verdict(mafia, civilians, maniacs).Some? <==>
      (mafia == 0 && maniacs == 0) || mafia >= civilians || (maniacs == 1 && civilians == 1 && mafia == 0)
    ensures Verdict(mafia, civilians, maniacs) == Some(ManiacWon) ==> mafia == 0 && civilians == 1 && maniacs == 1
  {
  }

  /**
   * While the game goes on, there are more civilians than mafia, someone plays against the
   * civilians, and hence at least two players are alive.
   */
  lemma GameContinues(alive: set<int>, roles: map<int, RoleKind>)
    requires Verdict(|MafiaIds(alive, roles)|, |CivilianIds(alive, roles)|, |ManiacIds(alive, roles)|).None?
    ensures |MafiaIds(alive, roles)| < |CivilianIds(alive, roles)|
    ensures |MafiaIds(alive, roles)| + |ManiacIds(alive, roles)| >= 1
    ensures |alive| >= 2
  {
    CountsBounded(alive, roles);
  }

  // ---------------------------------------------------------------- the host

  /** The role of every player at `ks`, read back from the player's role name. */
  method OriginalRoles(ks: seq<int>, alive: map<int, Player>) returns (roles: map<int, RoleKind>)
    requires forall x :: x in ks <==> x in alive
    ensures roles.Keys == alive.Keys
    ensures forall id :: id in roles ==> roles[id] == Kind(alive[id])
  {
    roles := map[];
    var i := 0;
    while i < |ks|
      invariant 0 <= i <= |ks|
      invariant forall x :: x in roles <==> x in ks[..i]
      invariant forall id :: id in roles ==> id in alive && roles[id] == Kind(alive[id])
    {
      var id := ks[i];
      roles := roles[id := RoleKindFromName(Role(alive[id]))];
      assert ks[..i + 1] == ks[..i] + [id];
      i := i + 1;
    }
    assert ks[..|ks|] == ks;
    assert forall x :: x in roles.Keys <==> x in alive.Keys;
  }

  class Host {
    const gs: GameState<Player>

    /** Every alive player was dealt the role of its own class. */
    predicate RolesMatch()
      reads gs
    {
      forall id :: id in gs.alive ==> id in gs.originalRoles && gs.originalRoles[id] == Kind(gs.alive[id])
    }

    /** Deal the original roles: each alive player's role, read back from its role name. */
    constructor (g: GameState<Player>)
      modifies g`originalRoles
      ensures gs == g
      ensures g.originalRoles.Keys == g.alive.Keys
      ensures RolesMatch()
    {
      gs := g;
      new;
      var roles := OriginalRoles(g.Ids(), g.alive);
      g.originalRoles := roles;
    }

    /**
     * `resolve_day`: evict the most-voted player (nobody when all abstain) and clear the votes.
     * The eviction is returned as the host logs it.
     */
    method ResolveDay() returns (evicted: Option<int>)
      modifies gs`alive, gs`dayVotes
      ensures evicted.None? <==> forall f :: f in old(gs.dayVotes) ==> old(gs.dayVotes)[f] == -1
      ensures evicted.Some? ==> IsEvicted(old(gs.dayVotes), evicted.value)
      ensures gs.alive == if evicted.Some? then old(gs.alive) - {evicted.value} else old(gs.alive)
      ensures gs.dayVotes == map[]
    {
      evicted := MostVoted(gs.dayVotes);
      if evicted.Some? {
        gs.alive := gs.alive - {evicted.value};
      }
      gs.dayVotes := map[];
    }

    /** The kill lambda of `resolve_night`. */
    method KillOne(vid: int, doctor: int)
      modifies gs`alive
      ensures gs.alive.Keys == Kill(old(gs.alive.Keys), vid, doctor)
      ensures gs.alive == old(gs.alive) - Killed(vid, doctor)
    {
      if vid == -1 {
        return;
      }
      if vid == doctor {
        return;
      }
      if vid in gs.alive {
        gs.alive := gs.alive - {vid};
      }
    }

    /**
     * `resolve_night`: gather the night's targets, let the Commissioner learn the result of an
     * inspection, then carry out the mafia's, the maniac's and the Commissioner's kills, each
     * unless it is the doctor's target.
     */
    method ResolveNight() returns (n: Night)
      modifies gs`alive, CommissionerObjects(gs.alive)
      ensures n == old(NightOf(gs.alive))
      ensures gs.alive == old(gs.alive) - Victims(n)
      ensures n.commissioner.Some? && n.shot == -1 && n.inspect != -1 ==>
        var c := old(gs.alive)[n.commissioner.value].comm;
        && c.nightDecision == Inspect && c.inspected == n.inspect
        && match HV.AlignmentOf(gs.originalRoles, n.inspect)
           case Mafia => c.killTarget == n.inspect && c.knownCiv == old(c.knownCiv) - {n.inspect}
           case Unknown => c.killTarget == old(c.killTarget) && c.knownCiv == old(c.knownCiv)
           case _ => c.killTarget == old(c.killTarget) && c.knownCiv == old(c.knownCiv) + {n.inspect}
      ensures (forall c :: c in CommissionerObjects(old(gs.alive))
                 && !(n.commissioner.Some? && n.shot == -1 && n.inspect != -1 && c == old(gs.alive)[n.commissioner.value].comm)
                 ==> unchanged(c))
    {
      assert forall o :: o in Objects(gs.alive) ==> allocated(o);
      n := GatherNight();
      Inform(n);
      KillAll(n);
    }

    /** The scan of the alive players that opens `resolve_night`. */
    method GatherNight() returns (n: Night)
      ensures n == NightOf(gs.alive)
    {
      assert forall o :: o in Objects(gs.alive) ==> allocated(o);
      var ids := gs.Ids();
      n := CollectNight(ids, gs.alive);
    }

    /** The Commissioner of the night learns the alignment of the player inspected, if there was an inspection and no shot. */
    method Inform(n: Night)
      requires n.commissioner.Some? ==> n.commissioner.value in gs.alive && gs.alive[n.commissioner.value].Comm?
      requires n.commissioner.Some? ==> n.inspect == gs.alive[n.commissioner.value].comm.NightActionTarget()
      modifies CommissionerObjects(gs.alive)
      ensures n.commissioner.Some? && n.shot == -1 && n.inspect != -1 ==>
        var c := gs.alive[n.commissioner.value].comm;
        && c.nightDecision == Inspect && c.inspected == n.inspect
        && match HV.AlignmentOf(gs.originalRoles, n.inspect)
           case Mafia => c.killTarget == n.inspect && c.knownCiv == old(c.knownCiv) - {n.inspect}
           case Unknown => c.killTarget == old(c.killTarget) && c.knownCiv == old(c.knownCiv)
           case _ => c.killTarget == old(c.killTarget) && c.knownCiv == old(c.knownCiv) + {n.inspect}
      ensures (forall c :: c in CommissionerObjects(gs.alive)
                 && !(n.commissioner.Some? && n.shot == -1 && n.inspect != -1 && c == gs.alive[n.commissioner.value].comm)
                 ==> unchanged(c))
    {
      if n.commissioner.Some? && n.shot == -1 && n.inspect != -1 {
        var c := gs.alive[n.commissioner.value].comm;
        CommIn(gs.alive, n.commissioner.value);
        c.ApplyInspectionResult(gs.originalRoles);
      }
    }

    /** The three kills of the night, in the order mafia, maniac, Commissioner; the doctor's target survives each. */
    method KillAll(n: Night)
      modifies gs`alive
      ensures gs.alive == old(gs.alive) - Victims(n)
    {
      KillOne(n.mafia, n.doctor);
      KillOne(n.maniac, n.doctor);
      KillOne(n.shot, n.doctor);
      KillsRemoveVictimsMap(old(gs.alive), n);
    }

    /**
     * The mafia consensus of a night: with at least two alive mafia of whom at least one chose
     * a target, every mafia player takes one of the most-chosen targets, `final`; otherwise
     * no target changes and `final` is -1. `ids` are the mafia in ascending order and `chosen`
     * the targets they had chosen.
     */
    method MafiaConsensus() returns (ids: seq<int>, chosen: seq<int>, final: int)
      requires RolesMatch()
      modifies MafiaObjects(gs.alive)
      ensures Ascending(ids)
      ensures forall x :: x in ids <==> x in gs.alive && HV.AlignmentOf(gs.originalRoles, x) == HV.Mafia
      ensures forall i :: 0 <= i < |ids| ==> ids[i] in gs.alive && gs.alive[ids[i]].Maf?
      ensures |ids| >= 2 ==> chosen == old(ChosenOf(ids, gs.alive))
      ensures |ids| < 2 || chosen == [] ==> final == -1 && forall m :: m in MafiaObjects(gs.alive) ==> unchanged(m)
      ensures |ids| >= 2 && chosen != [] ==> MostChosen(chosen, final)
      ensures |ids| >= 2 && chosen != [] ==> forall i :: 0 <= i < |ids| ==> gs.alive[ids[i]].maf.target == final
    {
      assert forall o :: o in Objects(gs.alive) ==> allocated(o);
      ids := MafiaIdsInOrder();
      assert ChosenOf(ids, gs.alive) == old(ChosenOf(ids, gs.alive));
      chosen, final := AgreeOnTarget(ids);
    }

    /** The consensus among the mafia players at `ids`, once they are known. */
    method AgreeOnTarget(ids: seq<int>) returns (chosen: seq<int>, final: int)
      requires forall i :: 0 <= i < |ids| ==> ids[i] in gs.alive && gs.alive[ids[i]].Maf?
      modifies MafiaObjects(gs.alive)
      ensures |ids| >= 2 ==> chosen == old(ChosenOf(ids, gs.alive))
      ensures |ids| < 2 || chosen == [] ==> final == -1 && forall m :: m in MafiaObjects(gs.alive) ==> unchanged(m)
      ensures |ids| >= 2 && chosen != [] ==> MostChosen(chosen, final)
      ensures |ids| >= 2 && chosen != [] ==> forall i :: 0 <= i < |ids| ==> gs.alive[ids[i]].maf.target == final
    {
      chosen, final := [], -1;
      if |ids| < 2 {
        return;
      }
      assert forall o :: o in Objects(gs.alive) ==> allocated(o);
      chosen := Chosen(ids);
      if chosen == [] {
        return;
      }
      final := ConsensusTarget(chosen);
      SetAllTargets(ids, final);
    }

    /** Every mafia player at `ids` takes the target `t`. */
    method SetAllTargets(ids: seq<int>, t: int)
      requires forall i :: 0 <= i < |ids| ==> ids[i] in gs.alive && gs.alive[ids[i]].Maf?
      modifies MafiaObjects(gs.alive)
      ensures forall i :: 0 <= i < |ids| ==> gs.alive[ids[i]].maf.target == t
    {
      var i := 0;
      while i < |ids|
        invariant 0 <= i <= |ids|
        invariant forall k :: 0 <= k < i ==> gs.alive[ids[k]].maf.target == t
      {
        var p := gs.alive[ids[i]];
        MafIn(gs.alive, ids[i]);
        SetTarget(p, t);
        i := i + 1;
      }
    }

    /** `mafia_ids`: the alive ids the host reports as mafia, ascending; all of them are Mafia-class players. */
    method MafiaIdsInOrder() returns (ids: seq<int>)
      requires RolesMatch()
      ensures Ascending(ids)
      ensures forall x :: x in ids <==> x in gs.alive && HV.AlignmentOf(gs.originalRoles, x) == HV.Mafia
      ensures forall i :: 0 <= i < |ids| ==> ids[i] in gs.alive && gs.alive[ids[i]].Maf?
    {
      var ks := AscendingIds(gs.alive.Keys);
      ids := FilterMafia(ks, gs.originalRoles);
      MafiaOrderIsMafia(ks, gs.alive, gs.originalRoles);
    }

    /** `chosen`: the set targets of the players at `ids`, in order. */
    method Chosen(ids: seq<int>) returns (chosen: seq<int>)
      requires forall i :: 0 <= i < |ids| ==> ids[i] in gs.alive && gs.alive[ids[i]].Maf?
      ensures chosen == ChosenOf(ids, gs.alive)
    {
      chosen := [];
      var i := 0;
      while i < |ids|
        invariant 0 <= i <= |ids|
        invariant chosen == ChosenOf(ids[..i], gs.alive)
      {
        assert ids[..i + 1][..i] == ids[..i];
        var t := GetTarget(gs.alive[ids[i]]);
        if t != -1 {
          chosen := chosen + [t];
        }
        i := i + 1;
      }
      assert ids[..|ids|] == ids;
    }

    /** `game_over()`: whether some side has won, from the three faction counts of the alive players. */
    function GameOver(): (over: bool)
      reads gs
      ensures over <==> Verdict(gs.MafiaCount(), gs.CiviliansCount(), gs.ManiacCount()).Some?
      ensures !over ==> |gs.alive| >= 2
    {
      var m, civ, man := gs.MafiaCount(), gs.CiviliansCount(), gs.ManiacCount();
      if m == 0 && man == 0 then true
      else if m >= civ then true
      else if man == 1 && civ == 1 && m == 0 then true
      else
        GameContinues(gs.alive.Keys, gs.originalRoles);
        false
    }
  }
}
