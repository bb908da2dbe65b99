/**
 * The closed classification of roles (mafia/include/role_traits.hpp): the role kinds,
 * the faction each kind belongs to, and the Russian display name of each kind.
 */
module RoleTraits {

  datatype Alignment = Unknown | Civilian | Mafia | Maniac

  datatype RoleKind =
    | UnknownRole
    | CivilianRole
    | MafiaRole
    | BullRole
    | CommissionerRole
    | DoctorRole
    | ManiacRole
    | WitnessRole
    | NinjaRole

  /** The eight kinds that have a name; UnknownRole is the remaining one. */
  const NamedKinds: set<RoleKind> :=
    {CivilianRole, MafiaRole, BullRole, CommissionerRole, DoctorRole, ManiacRole, WitnessRole, NinjaRole}

  /** The faction a kind plays for: Mafia, Ninja and Bull are the mafia's side. */
  function AlignmentFor(kind: RoleKind): (a: Alignment)
    ensures a == Mafia <==> kind in {MafiaRole, NinjaRole, BullRole}
    ensures a == Maniac <==> kind == ManiacRole
    ensures a == Civilian <==> kind in {CivilianRole, CommissionerRole, DoctorRole, WitnessRole}
    ensures a == Unknown <==> kind == UnknownRole
  {
    match kind
    case MafiaRole | NinjaRole | BullRole => Mafia
    case ManiacRole => Maniac
    case CivilianRole | CommissionerRole | DoctorRole | WitnessRole => Civilian
    case UnknownRole => Unknown
  }

  predicate IsMafiaAligned(kind: RoleKind) {
    AlignmentFor(kind) == Mafia
  }

  predicate IsManiac(kind: RoleKind) {
    kind == ManiacRole
  }

  predicate IsCommissioner(kind: RoleKind) {
    kind == CommissionerRole
  }

  predicate IsDoctor(kind: RoleKind) {
    kind == DoctorRole
  }

  predicate IsBull(kind: RoleKind) {
    kind == BullRole
  }

  predicate IsWitness(kind: RoleKind) {
    kind == WitnessRole
  }

  predicate IsNinja(kind: RoleKind) {
    kind == NinjaRole
  }

  /** A Bull cannot be killed by the maniac; no other kind has that protection. */
  predicate PreventsManiacKill(kind: RoleKind) {
    IsBull(kind)
  }

  /** The display name of a kind; the empty string for UnknownRole. */
  function RoleName(kind: RoleKind): (name: string)
    ensures name == "" <==> kind == UnknownRole
  {
    match kind
    case CivilianRole => "Мирный"
    case MafiaRole => "Мафия"
    case BullRole => "Бык"
    case CommissionerRole => "Комиссар"
    case DoctorRole => "Доктор"
    case ManiacRole => "Маньяк"
    case WitnessRole => "Свидетель"
    case NinjaRole => "Ниндзя"
    case UnknownRole => ""
  }

  /** The kind whose display name is `name`; UnknownRole for every other string. */
  function RoleKindFromName(name: string): (kind: RoleKind)
    ensures kind != UnknownRole ==> RoleName(kind) == name
  {
    if name == "Мирный" then CivilianRole
    else if name == "Мафия" then MafiaRole
    else if name == "Бык" then BullRole
    else if name == "Комиссар" then CommissionerRole
    else if name == "Доктор" then DoctorRole
    else if name == "Маньяк" then ManiacRole
    else if name == "Свидетель" then WitnessRole
    else if name == "Ниндзя" then NinjaRole
    else UnknownRole
  }

  /** The mafia-aligned predicate is exactly "the faction is Mafia"; the maniac predicate implies the Maniac faction. */
  lemma AlignmentPredicates(kind: RoleKind)
    ensures IsMafiaAligned(kind) <==> kind in {MafiaRole, NinjaRole, BullRole}
    ensures IsManiac(kind) ==> AlignmentFor(kind) == Maniac
    ensures PreventsManiacKill(kind) <==> kind == BullRole
  {
  }

  /** Naming a kind and reading the name back gives the kind, Unknown included (through ""). */
  lemma NameRoundTrip(kind: RoleKind)
    ensures RoleKindFromName(RoleName(kind)) == kind
  {
  }

  /** Distinct kinds have distinct names. */
  lemma RoleNameInjective(k1: RoleKind, k2: RoleKind)
    requires RoleName(k1) == RoleName(k2)
    ensures k1 == k2
  {
    NameRoundTrip(k1);
    NameRoundTrip(k2);
  }

  /** A string that is none of the eight names reads back as UnknownRole. */
  lemma UnnamedIsUnknown(name: string)
    requires forall k :: k in NamedKinds ==> RoleName(k) != name
    ensures RoleKindFromName(name) == UnknownRole
  {
    var kind := RoleKindFromName(name);
    assert kind == UnknownRole || kind in NamedKinds;
  }
}
