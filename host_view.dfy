/**
 * The host's read-only view of the dealt roles (mafia/src/host.cpp:27-53): the alignment the
 * host reports for an id, and the ids a mafia player may target.
 *
 * The host compares the display name of the dealt role with the strings "Мафия", "Дон" and
 * "Маньяк". No kind is named "Дон", and every other name reads as Civilian, so the host's
 * alignment differs from the faction table of RoleTraits for the Bull and the Ninja.
 */
module HostView {
  import RT = RoleTraits
  import opened OrderedIds

  /** `Host::Alignment`. */
  datatype Alignment = Unknown | Civilian | Mafia | Maniac

  /** `alignment_of(id)`: from the display name of the dealt role, Unknown when no role was dealt. */
  function AlignmentOf(roles: map<int, RT.RoleKind>, id: int): (a: Alignment)
    ensures a == Unknown <==> id !in roles
    ensures a == Mafia <==> id in roles && roles[id] == RT.MafiaRole
    ensures a == Maniac <==> id in roles && roles[id] == RT.ManiacRole
    ensures a == Civilian <==> id in roles && roles[id] !in {RT.MafiaRole, RT.ManiacRole}
  {
    if id !in roles then Unknown
    else
      var role := RT.RoleName(roles[id]);
      if role == "Мафия" || role == "Дон" then Mafia
      else if role == "Маньяк" then Maniac
      else Civilian
  }

  /**
   * The host's alignment agrees with the faction table exactly for the kinds other than Bull,
   * Ninja and UnknownRole: the Bull and the Ninja are on the mafia's side by the table but the
   * host reports them as civilians, and an Unknown dealt role is reported as a civilian too.
   */
  lemma HostAlignmentAgreement(roles: map<int, RT.RoleKind>, id: int)
    requires id in roles
    ensures Agrees(AlignmentOf(roles, id), RT.AlignmentFor(roles[id])) <==> roles[id] !in {RT.BullRole, RT.NinjaRole, RT.UnknownRole}
    ensures roles[id] in {RT.BullRole, RT.NinjaRole} ==> AlignmentOf(roles, id) == Civilian && RT.IsMafiaAligned(roles[id])
  {
  }

  /** The two alignment enums name the same faction. */
  predicate Agrees(a: Alignment, b: RT.Alignment) {
    match a
    case Unknown => b == RT.Unknown
    case Civilian => b == RT.Civilian
    case Mafia => b == RT.Mafia
    case Maniac => b == RT.Maniac
  }

  /** The ids of `ks`, in their order, other than `requester` and not reported as mafia. */
  function Targets(ks: seq<int>, roles: map<int, RT.RoleKind>, requester: int): (r: seq<int>)
    ensures forall x :: x in r <==> x in ks && x != requester && AlignmentOf(roles, x) != Mafia
    ensures Ascending(ks) ==> Ascending(r)
  {
    if ks == [] then []
    else
      var n := |ks| - 1;
      var rest := Targets(ks[..n], roles, requester);
      assert forall x :: x in ks <==> x in ks[..n] || x == ks[n] by {
        assert ks == ks[..n] + [ks[n]];
      }
      if ks[n] != requester && AlignmentOf(roles, ks[n]) != Mafia then
        if Ascending(ks) then
          PrefixBelow(ks, n);
          SnocAscending(rest, ks[n]);
          rest + [ks[n]]
        else
          rest + [ks[n]]
      else
        rest
  }

  /** `mafia_targets_for(r)`: the alive ids other than `r` that the host does not report as mafia, ascending. */
  method MafiaTargetsFor(alive: set<int>, roles: map<int, RT.RoleKind>, requester: int) returns (ids: seq<int>)
    ensures Ascending(ids)
    ensures forall x :: x in ids <==> x in alive && x != requester && AlignmentOf(roles, x) != Mafia
  {
    var ks := AscendingIds(alive);
    ids := [];
    var i := 0;
    while i < |ks|
      invariant 0 <= i <= |ks|
      invariant ids == Targets(ks[..i], roles, requester)
    {
      var pid := ks[i];
      assert ks[..i + 1][..i] == ks[..i];
      if pid != requester && AlignmentOf(roles, pid) != Mafia {
        ids := ids + [pid];
      }
      i := i + 1;
    }
    assert ks[..|ks|] == ks;
  }
}
