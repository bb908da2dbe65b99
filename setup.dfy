/**
 * Game setup (mafia/src/main.cpp:17-214): the whitelist of role names, the three ways of
 * composing the role pool (an explicit list, per-role counts, the default `max(1, N/k)`
 * mafia), the shuffled dealing of the pool to ids 1..N, and the choice of the human's id in
 * debug mode.
 *
 * Roles are dealt as kinds (`map<int, RoleKind>`); `Instantiate` then creates one fresh
 * player object of the matching class per id. The YAML file is abstracted as a `Config`
 * value whose absent keys are None.
 */
module Setup {
  import opened Wrappers
  import opened RoleTraits
  import opened OrderedIds
  import opened Ascii
  import opened GameStates
  import opened Roles

  // ---------------------------------------------------------------- role names

  /** The English role names a configuration may use. */
  function EnglishName(kind: RoleKind): string {
    match kind
    case MafiaRole => "Mafia"
    case BullRole => "Bull"
    case CommissionerRole => "Commissioner"
    case DoctorRole => "Doctor"
    case CivilianRole => "Civilian"
    case WitnessRole => "Witness"
    case NinjaRole => "Ninja"
    case ManiacRole => "Maniac"
    case UnknownRole => ""
  }

  const EnglishNames: set<string> := {"Mafia", "Bull", "Commissioner", "Doctor", "Civilian", "Witness", "Ninja", "Maniac"}

  /** `make_role3`: the role of a whitelisted English name, None (an empty pointer) for any other name. */
  function MakeRole3(name: string): (r: Option<RoleKind>)
    ensures r.Some? <==> name in EnglishNames
    ensures r.Some? ==> r.value != UnknownRole && EnglishName(r.value) == name
  {
    if name == "Mafia" then Some(MafiaRole)
    else if name == "Bull" then Some(BullRole)
    else if name == "Commissioner" then Some(CommissionerRole)
    else if name == "Doctor" then Some(DoctorRole)
    else if name == "Civilian" then Some(CivilianRole)
    else if name == "Witness" then Some(WitnessRole)
    else if name == "Ninja" then Some(NinjaRole)
    else if name == "Maniac" then Some(ManiacRole)
    else None
  }

  /** Every dealt kind has a whitelisted name that `make_role3` reads back; "Don" is refused. */
  lemma MakeRole3RoundTrip(kind: RoleKind)
    requires kind != UnknownRole
    ensures EnglishName(kind) in EnglishNames
    ensures MakeRole3(EnglishName(kind)) == Some(kind)
    ensures MakeRole3("Don") == None
  {
  }

  // ---------------------------------------------------------------- explicit list

  /** The supported roles of an explicit list, in order; unsupported names are skipped. */
  function Accepted(names: seq<string>): (r: seq<RoleKind>)
    ensures |r| <= |names|
    ensures forall i :: 0 <= i < |r| ==> r[i] != UnknownRole
  {
    if names == [] then []
    else
      var n := |names| - 1;
      Accepted(names[..n]) + (match MakeRole3(names[n]) case Some(k) => [k] case None => [])
  }

  /** An explicit list of whitelisted names is accepted whole, in order. */
  lemma {:induction false} AcceptedWhitelisted(names: seq<string>)
    requires forall i :: 0 <= i < |names| ==> names[i] in EnglishNames
    ensures |Accepted(names)| == |names|
    ensures forall i :: 0 <= i < |names| ==> Accepted(names)[i] == MakeRole3(names[i]).value
  {
    if names != [] {
      var n := |names| - 1;
      AcceptedWhitelisted(names[..n]);
      assert Accepted(names) == Accepted(names[..n]) + [MakeRole3(names[n]).value];
    }
  }

  /** A name outside the whitelist (such as "Don") adds nothing to the accepted roles. */
  lemma AcceptedSkips(names: seq<string>, name: string)
    requires name !in EnglishNames
    ensures Accepted(names + [name]) == Accepted(names)
  {
    assert (names + [name])[..|names|] == names;
  }

  /**
   * Explicit-list mode deals this pool in order to ids 1, 2, ...: the accepted roles, then
   * Civilians until `n` players exist.
   */
  function ExplicitPool(names: seq<string>, n: int): (pool: seq<RoleKind>)
    ensures var acc := Accepted(names);
      && |pool| == Max(n, |acc|)
      && pool[..|acc|] == acc
      && (forall i :: |acc| <= i < |pool| ==> pool[i] == CivilianRole)
  {
    var acc := Accepted(names);
    acc + Rep(CivilianRole, if |acc| < n then n - |acc| else 0)
  }

  /** The two loops of explicit-list mode. */
  method ExplicitDeal(names: seq<string>, n: int) returns (alive: map<int, RoleKind>)
    ensures forall id :: id in alive <==> 1 <= id <= |ExplicitPool(names, n)|
    ensures forall i :: 0 <= i < |ExplicitPool(names, n)| ==> alive[i + 1] == ExplicitPool(names, n)[i]
  {
    alive := DealAccepted(names);
    ghost var acc := Accepted(names);
    ghost var dealt := alive;
    alive := FillWithCivilians(alive, n);
    ghost var pool := ExplicitPool(names, n);
    forall j | 0 <= j < |pool|
      ensures alive[j + 1] == pool[j]
    {
      if j < |acc| {
        assert pool[..|acc|][j] == acc[j];
        assert dealt[j + 1] == acc[j];
      }
    }
  }

  /** The first loop of explicit-list mode: the accepted roles go to ids 1, 2, ... in order. */
  method DealAccepted(names: seq<string>) returns (alive: map<int, RoleKind>)
    ensures forall id :: id in alive <==> 1 <= id <= |Accepted(names)|
    ensures forall j :: 0 <= j < |Accepted(names)| ==> alive[j + 1] == Accepted(names)[j]
    ensures |alive| == |Accepted(names)|
  {
    alive := map[];
    var next := 1;
    var i := 0;
    while i < |names|
      invariant 0 <= i <= |names|
      invariant next == |Accepted(names[..i])| + 1
      invariant forall id :: id in alive <==> 1 <= id < next
      invariant forall j :: 0 <= j < next - 1 ==> alive[j + 1] == Accepted(names[..i])[j]
      invariant |alive| == next - 1
    {
      assert names[..i + 1][..i] == names[..i];
      var p := MakeRole3(names[i]);
      if p.Some? {
        alive := alive[next := p.value];
        next := next + 1;
      }
      i := i + 1;
    }
    assert names[..|names|] == names;
  }

  /** The second loop of explicit-list mode: Civilians go to the next ids until `n` players exist. */
  method FillWithCivilians(dealt: map<int, RoleKind>, n: int) returns (alive: map<int, RoleKind>)
    requires forall id :: id in dealt <==> 1 <= id <= |dealt|
    ensures forall id :: id in alive <==> 1 <= id <= Max(n, |dealt|)
    ensures forall id :: id in dealt ==> id in alive && alive[id] == dealt[id]
    ensures forall id :: |dealt| < id <= Max(n, |dealt|) ==> alive[id] == CivilianRole
  {
    alive := dealt;
    var next := |dealt| + 1;
    while |alive| < n
      invariant next >= |dealt| + 1
      invariant forall id :: id in alive <==> 1 <= id < next
      invariant forall id :: id in dealt ==> id in alive && alive[id] == dealt[id]
      invariant forall id :: |dealt| < id < next ==> alive[id] == CivilianRole
      invariant |alive| == next - 1
      invariant next - 1 <= Max(n, |dealt|)
      decreases n - |alive|
    {
      alive := alive[next := CivilianRole];
      next := next + 1;
    }
  }

  function Max(a: int, b: int): int {
    if a < b then b else a
  }

  // ---------------------------------------------------------------- pools

  /** `count` copies of `kind`. */
  function Rep(kind: RoleKind, count: nat): (r: seq<RoleKind>)
    ensures |r| == count
    ensures forall i :: 0 <= i < count ==> r[i] == kind
  {
    if count == 0 then [] else Rep(kind, count - 1) + [kind]
  }

  /** `for (i = 0; i < count; ++i) pool.emplace_back(new Kind())`. */
  method Append(pool: seq<RoleKind>, kind: RoleKind, count: nat) returns (r: seq<RoleKind>)
    ensures r == pool + Rep(kind, count)
  {
    r := pool;
    var i := 0;
    while i < count
      invariant 0 <= i <= count
      invariant r == pool + Rep(kind, i)
    {
      r := r + [kind];
      i := i + 1;
    }
  }

  /** `while (pool.size() < n) pool.emplace_back(new Civilian())`. */
  method PadWithCivilians(pool: seq<RoleKind>, n: int) returns (r: seq<RoleKind>)
    ensures r == pool + Rep(CivilianRole, if |pool| < n then n - |pool| else 0)
    ensures |r| >= n
  {
    r := pool;
    while |r| < n
      invariant |pool| <= |r|
      invariant r == pool + Rep(CivilianRole, |r| - |pool|)
      invariant |pool| < n ==> |r| <= n
      invariant |pool| >= n ==> r == pool
      decreases n - |r|
    {
      r := r + [CivilianRole];
    }
  }

  /** The optional per-role counts of a configuration. */
  datatype Counts = Counts(mafia: Option<int>, commissioner: Option<int>, doctor: Option<int>, civilians: Option<int>,
                           witnesses: Option<int>, bull: Option<int>, ninja: Option<int>, maniac: Option<int>)

  /** `cfg[key] ? max(0, cfg[key]) : 0`. */
  function Clamp(c: Option<int>): (r: nat)
    ensures c.Some? && c.value >= 0 ==> r == c.value
    ensures c.None? || c.value < 0 ==> r == 0
  {
    if c.Some? && c.value > 0 then c.value else 0
  }

  /** Count mode is chosen when any of the four classic count keys is present. */
  predicate CountKeysPresent(c: Counts) {
    c.mafia.Some? || c.commissioner.Some? || c.doctor.Some? || c.civilians.Some?
  }

  function CountSum(c: Counts): nat {
    Clamp(c.mafia) + Clamp(c.commissioner) + Clamp(c.doctor) + Clamp(c.civilians)
    + Clamp(c.witnesses) + Clamp(c.bull) + Clamp(c.ninja) + Clamp(c.maniac)
  }

  /** The number of players in count mode: the configured `players` (10 if absent), or the sum of the counts when `players` is absent and the sum is positive. */
  function CountPlayers(players: Option<int>, c: Counts): (n: int)
    ensures players.Some? ==> n == players.value
    ensures players.None? ==> n == (if CountSum(c) > 0 then CountSum(c) else 10)
  {
    if CountSum(c) > 0 && players.None? then CountSum(c) else players.GetOr(10)
  }

  /** The counted roles in the order the pool receives them. */
  function Counted(c: Counts): (r: seq<RoleKind>)
    ensures |r| == CountSum(c)
  {
    Rep(MafiaRole, Clamp(c.mafia)) + Rep(CommissionerRole, Clamp(c.commissioner))
    + Rep(DoctorRole, Clamp(c.doctor)) + Rep(WitnessRole, Clamp(c.witnesses))
    + Rep(BullRole, Clamp(c.bull)) + Rep(NinjaRole, Clamp(c.ninja))
    + Rep(ManiacRole, Clamp(c.maniac)) + Rep(CivilianRole, Clamp(c.civilians))
  }

  /** The count-mode pool: the counted roles, then Civilians up to `n`. */
  function CountPool(c: Counts, n: int): (pool: seq<RoleKind>)
    ensures |pool| >= n
    ensures |pool| >= CountSum(c)
  {
    Counted(c) + Rep(CivilianRole, if CountSum(c) < n then n - CountSum(c) else 0)
  }

  /** The loops that fill the count-mode pool. */
  method BuildCountPool(c: Counts, n: int) returns (pool: seq<RoleKind>)
    ensures pool == CountPool(c, n)
  {
    pool := Append([], MafiaRole, Clamp(c.mafia));
    assert pool == Rep(MafiaRole, Clamp(c.mafia));
    pool := Append(pool, CommissionerRole, Clamp(c.commissioner));
    pool := Append(pool, DoctorRole, Clamp(c.doctor));
    pool := Append(pool, WitnessRole, Clamp(c.witnesses));
    pool := Append(pool, BullRole, Clamp(c.bull));
    pool := Append(pool, NinjaRole, Clamp(c.ninja));
    pool := Append(pool, ManiacRole, Clamp(c.maniac));
    pool := Append(pool, CivilianRole, Clamp(c.civilians));
    pool := PadWithCivilians(pool, n);
  }

  /** The configured count of a kind (Unknown has none). */
  function CountOf(c: Counts, kind: RoleKind): Option<int> {
    match kind
    case MafiaRole => c.mafia
    case CommissionerRole => c.commissioner
    case DoctorRole => c.doctor
    case CivilianRole => c.civilians
    case WitnessRole => c.witnesses
    case BullRole => c.bull
    case NinjaRole => c.ninja
    case ManiacRole => c.maniac
    case UnknownRole => None
  }

  /**
   * The count-mode pool holds every kind exactly as often as its clamped count, except that
   * Civilians also fill the pool up to `n`.
   */
  lemma CountPoolHolds(c: Counts, n: int, kind: RoleKind)
    ensures multiset(CountPool(c, n))[kind]
            == Clamp(CountOf(c, kind)) + (if kind == CivilianRole && CountSum(c) < n then n - CountSum(c) else 0)
  {
    var pad: nat := if CountSum(c) < n then n - CountSum(c) else 0;
    var counted := Counted(c);
    assert CountPool(c, n) == counted + Rep(CivilianRole, pad);
    CountedHolds(c, kind);
    AppendCount(counted, CivilianRole, pad, kind);
  }

  /** The counted roles hold each kind as often as its clamped count. */
  lemma CountedHolds(c: Counts, kind: RoleKind)
    ensures multiset(Counted(c))[kind] == Clamp(CountOf(c, kind))
  {
    BlocksHold(Clamp(c.mafia), Clamp(c.commissioner), Clamp(c.doctor), Clamp(c.witnesses),
               Clamp(c.bull), Clamp(c.ninja), Clamp(c.maniac), Clamp(c.civilians), kind);
  }

  /** Eight blocks of the kinds in count-mode order hold each kind as often as its block is long. */
  lemma BlocksHold(maf: nat, comm: nat, doc: nat, wit: nat, bull: nat, ninja: nat, maniac: nat, civ: nat, kind: RoleKind)
    ensures multiset(Rep(MafiaRole, maf) + Rep(CommissionerRole, comm) + Rep(DoctorRole, doc) + Rep(WitnessRole, wit)
                     + Rep(BullRole, bull) + Rep(NinjaRole, ninja) + Rep(ManiacRole, maniac) + Rep(CivilianRole, civ))[kind]
            == match kind
               case MafiaRole => maf
               case CommissionerRole => comm
               case DoctorRole => doc
               case WitnessRole => wit
               case BullRole => bull
               case NinjaRole => ninja
               case ManiacRole => maniac
               case CivilianRole => civ
               case UnknownRole => 0
  {
    var p0 := Rep(MafiaRole, maf);
    var p1 := p0 + Rep(CommissionerRole, comm);
    var p2 := p1 + Rep(DoctorRole, doc);
    var p3 := p2 + Rep(WitnessRole, wit);
    var p4 := p3 + Rep(BullRole, bull);
    var p5 := p4 + Rep(NinjaRole, ninja);
    var p6 := p5 + Rep(ManiacRole, maniac);
    RepCount(MafiaRole, maf, kind);
    AppendCount(p0, CommissionerRole, comm, kind);
    AppendCount(p1, DoctorRole, doc, kind);
    AppendCount(p2, WitnessRole, wit, kind);
    AppendCount(p3, BullRole, bull, kind);
    AppendCount(p4, NinjaRole, ninja, kind);
    AppendCount(p5, ManiacRole, maniac, kind);
    AppendCount(p6, CivilianRole, civ, kind);
    match kind {
      case MafiaRole =>
      case CommissionerRole =>
      case DoctorRole =>
      case WitnessRole =>
      case BullRole =>
      case NinjaRole =>
      case ManiacRole =>
      case CivilianRole =>
      case UnknownRole =>
    }
  }

  /** Appending `count` copies of `kind` adds `count` to the multiplicity of `kind` only. */
  lemma AppendCount(pool: seq<RoleKind>, kind: RoleKind, count: nat, other: RoleKind)
    ensures multiset(pool + Rep(kind, count))[other] == multiset(pool)[other] + (if other == kind then count else 0)
  {
    RepCount(kind, count, other);
  }

  /** `count` copies of `kind` hold `kind` `count` times and nothing else. */
  lemma {:induction false} RepCount(kind: RoleKind, count: nat, other: RoleKind)
    ensures multiset(Rep(kind, count))[other] == if other == kind then count else 0
  {
    if count > 0 {
      RepCount(kind, count - 1, other);
      assert Rep(kind, count) == Rep(kind, count - 1) + [kind];
    }
  }

  /**
   * Default mode: `max(1, n / k)` Mafia, one Commissioner, one Doctor, then Civilians up to `n`.
   * The pool is only built for `n >= 0`, where C++'s truncating `/` and Dafny's Euclidean `/`
   * agree (`NonNegativeQuotient`).
   */
  function DefaultPool(n: nat, k: int): (pool: seq<RoleKind>)
    requires k != 0
    ensures |pool| >= n
    ensures |pool| >= 3
  {
    var head := Rep(MafiaRole, DefaultMafia(n, k)) + [CommissionerRole, DoctorRole];
    head + Rep(CivilianRole, if |head| < n then n - |head| else 0)
  }

  /** `std::max(1, n / k)`: the number of Mafia in the default pool. */
  function DefaultMafia(n: nat, k: int): (m: nat)
    requires k != 0
    ensures m >= 1
    ensures k > 0 && n >= k ==> m == n / k
  {
    if n / k < 1 then 1 else n / k
  }

  /** For a non-negative dividend, Euclidean division truncates toward zero, as C++'s `/` does. */
  lemma NonNegativeQuotient(a: nat, b: int)
    requires b != 0
    ensures a / b == if b > 0 then a / b else -(a / -b)
  {
    if b < 0 {
      var q, r := a / -b, a % -b;
      assert a == q * -b + r && 0 <= r < -b;
      assert a == (-q) * b + r;
    }
  }

  /** The default pool holds `max(1, n / k)` Mafia, one Commissioner, one Doctor and Civilians for the rest. */
  lemma DefaultPoolHolds(n: nat, k: int, kind: RoleKind)
    requires k != 0
    ensures multiset(DefaultPool(n, k))[kind]
            == (if kind == MafiaRole then DefaultMafia(n, k) else 0)
             + (if kind == CommissionerRole || kind == DoctorRole then 1 else 0)
             + (if kind == CivilianRole && DefaultMafia(n, k) + 2 < n then n - DefaultMafia(n, k) - 2 else 0)
  {
    var m := DefaultMafia(n, k);
    var pad: nat := if m + 2 < n then n - m - 2 else 0;
    assert DefaultPool(n, k) == Rep(MafiaRole, m) + [CommissionerRole, DoctorRole] + Rep(CivilianRole, pad);
    DefaultBlocksHold(m, pad, kind);
  }

  /** Mafia, then one Commissioner and one Doctor, then Civilians: each kind as often as placed. */
  lemma DefaultBlocksHold(m: nat, pad: nat, kind: RoleKind)
    ensures multiset(Rep(MafiaRole, m) + [CommissionerRole, DoctorRole] + Rep(CivilianRole, pad))[kind]
            == (if kind == MafiaRole then m else 0)
             + (if kind == CommissionerRole || kind == DoctorRole then 1 else 0)
             + (if kind == CivilianRole then pad else 0)
  {
    var head := Rep(MafiaRole, m) + [CommissionerRole, DoctorRole];
    RepCount(MafiaRole, m, kind);
    assert multiset([CommissionerRole, DoctorRole])[kind] == if kind == CommissionerRole || kind == DoctorRole then 1 else 0;
    assert multiset(head)[kind] == multiset(Rep(MafiaRole, m))[kind] + multiset([CommissionerRole, DoctorRole])[kind];
    AppendCount(head, CivilianRole, pad, kind);
  }

  /** The loops that fill the default pool. */
  method BuildDefaultPool(n: nat, k: int) returns (pool: seq<RoleKind>)
    requires k != 0
    ensures pool == DefaultPool(n, k)
  {
    var mafia := if n / k < 1 then 1 else n / k;
    assert mafia == DefaultMafia(n, k);
    pool := Append([], MafiaRole, mafia);
    assert pool == Rep(MafiaRole, mafia);
    pool := pool + [CommissionerRole, DoctorRole];
    pool := PadWithCivilians(pool, n);
  }

  // ---------------------------------------------------------------- shuffled dealing

  /** `ids` lists each of 1..n exactly once. */
  ghost predicate IsShuffleOf(ids: seq<int>, n: nat) {
    && |ids| == n
    && (forall i, j :: 0 <= i < j < |ids| ==> ids[i] != ids[j])
    && (forall x :: x in ids <==> 1 <= x <= n)
  }

  /** Exchanging two entries of a shuffle of 1..n leaves a shuffle of 1..n. */
  lemma SwapKeepsShuffle(s: seq<int>, n: nat, i: int, j: int)
    requires IsShuffleOf(s, n) && 0 <= i < n && 0 <= j < n
    ensures IsShuffleOf(s[i := s[j]][j := s[i]], n)
  {
    var t := s[i := s[j]][j := s[i]];
    forall p, q | 0 <= p < q < n
      ensures t[p] != t[q]
    {
      var p' := if p == j then i else if p == i then j else p;
      var q' := if q == j then i else if q == i then j else q;
      assert t[p] == s[p'] && t[q] == s[q'];
      assert p' != q';
    }
    forall x
      ensures x in t <==> x in s
    {
      if x in s {
        var p :| 0 <= p < n && s[p] == x;
        var p' := if p == j then i else if p == i then j else p;
        assert t[p'] == x;
      }
      if x in t {
        var p :| 0 <= p < n && t[p] == x;
        var p' := if p == j then i else if p == i then j else p;
        assert s[p'] == x;
      }
    }
  }

  /** `ids = 1..n; std::shuffle(ids)`: the Fisher-Yates swaps, each index drawn freely. */
  method ShuffledIds(n: nat) returns (ids: seq<int>)
    ensures IsShuffleOf(ids, n)
  {
    var a := new int[n](i => i + 1);
    forall x | 1 <= x <= n
      ensures x in a[..]
    {
      assert a[..][x - 1] == x;
    }
    var i := n;
    while i > 1
      invariant 0 <= i <= n
      invariant IsShuffleOf(a[..], n)
      modifies a
    {
      i := i - 1;
      var j :| 0 <= j <= i;
      SwapKeepsShuffle(a[..], n, i, j);
      a[i], a[j] := a[j], a[i];
    }
    ids := a[..];
  }

  /**
   * `alive[ids[i]] = pool[i]` for every position below `n`: with a shuffle of 1..n, each id
   * gets the pool entry at its shuffled position; pool entries past `n` are not dealt.
   */
  method DealShuffled(ids: seq<int>, pool: seq<RoleKind>, n: nat) returns (alive: map<int, RoleKind>)
    requires IsShuffleOf(ids, n) && |pool| >= n
    ensures forall id :: id in alive <==> 1 <= id <= n
    ensures forall i :: 0 <= i < n ==> ids[i] in alive && alive[ids[i]] == pool[i]
  {
    alive := map[];
    var i := 0;
    while i < n
      invariant 0 <= i <= n
      invariant forall id :: id in alive <==> id in ids[..i]
      invariant forall j :: 0 <= j < i ==> ids[j] in alive && alive[ids[j]] == pool[j]
    {
      assert ids[..i + 1] == ids[..i] + [ids[i]];
      alive := alive[ids[i] := pool[i]];
      i := i + 1;
    }
    assert ids[..n] == ids;
  }

  /** The ids among `xs` that were dealt `kind`. */
  ghost function DealtAmong(xs: seq<int>, alive: map<int, RoleKind>, kind: RoleKind): set<int> {
    set id | id in xs && id in alive && alive[id] == kind
  }

  /** The roles dealt to the ids: each kind is dealt as often as it occurs among the pool's first `n` entries. */
  lemma DealtCounts(ids: seq<int>, pool: seq<RoleKind>, n: nat, alive: map<int, RoleKind>, kind: RoleKind)
    requires IsShuffleOf(ids, n) && |pool| >= n
    requires forall id :: id in alive <==> 1 <= id <= n
    requires forall i :: 0 <= i < n ==> ids[i] in alive && alive[ids[i]] == pool[i]
    ensures |set id | id in alive && alive[id] == kind| == multiset(pool[..n])[kind]
  {
    DealtCountsUpTo(ids, pool, n, alive, kind, n);
    assert ids[..n] == ids;
    forall id | id in alive
      ensures id in ids
    {
      assert 1 <= id <= n;
    }
    assert DealtAmong(ids, alive, kind) == (set id | id in alive && alive[id] == kind);
  }

  lemma {:induction false} DealtCountsUpTo(ids: seq<int>, pool: seq<RoleKind>, n: nat, alive: map<int, RoleKind>, kind: RoleKind, m: nat)
    requires IsShuffleOf(ids, n) && |pool| >= n && m <= n
    requires forall i :: 0 <= i < n ==> ids[i] in alive && alive[ids[i]] == pool[i]
    ensures |DealtAmong(ids[..m], alive, kind)| == multiset(pool[..m])[kind]
  {
    if m > 0 {
      DealtCountsUpTo(ids, pool, n, alive, kind, m - 1);
      LaterIdIsNew(ids, n, m - 1);
      assert ids[..m] == ids[..m - 1] + [ids[m - 1]];
      DealtAmongSnoc(ids[..m - 1], ids[m - 1], alive, kind);
      assert pool[..m] == pool[..m - 1] + [pool[m - 1]];
    }
  }

  /** In a shuffle, the id at position `m` does not occur before it. */
  lemma LaterIdIsNew(ids: seq<int>, n: nat, m: nat)
    requires IsShuffleOf(ids, n) && m < n
    ensures ids[m] !in ids[..m]
  {
    forall p | 0 <= p < m
      ensures ids[p] != ids[m]
    {
    }
  }

  /** Appending a new id adds it to the ids dealt `kind` exactly when it was dealt `kind`. */
  lemma DealtAmongSnoc(xs: seq<int>, x: int, alive: map<int, RoleKind>, kind: RoleKind)
    requires x !in xs
    ensures x in alive && alive[x] == kind ==> |DealtAmong(xs + [x], alive, kind)| == |DealtAmong(xs, alive, kind)| + 1
    ensures !(x in alive && alive[x] == kind) ==> DealtAmong(xs + [x], alive, kind) == DealtAmong(xs, alive, kind)
  {
    if x in alive && alive[x] == kind {
      assert DealtAmong(xs + [x], alive, kind) == DealtAmong(xs, alive, kind) + {x};
    } else {
      assert DealtAmong(xs + [x], alive, kind) == DealtAmong(xs, alive, kind);
    }
  }

  // ---------------------------------------------------------------- configuration

  /** The configuration keys the setup reads; absent keys are None. */
  datatype Config = Config(players: Option<int>, k: Option<int>, human: Option<bool>, announce: Option<string>,
                           debug: Option<bool>, debugRole: Option<string>, roles: Option<seq<string>>, counts: Counts)

  /** Debug mode forces a human player. */
  function HumanEnabled(cfg: Config): (h: bool)
    ensures cfg.debug == Some(true) ==> h
    ensures cfg.debug != Some(true) ==> h == cfg.human.GetOr(false)
  {
    cfg.human.GetOr(false) || cfg.debug.GetOr(false)
  }

  /** Night results are announced openly unless the `announce` key is present and not "open". */
  function AnnounceOpen(cfg: Config): (open: bool)
    ensures open <==> cfg.announce.None? || cfg.announce.value == "open"
  {
    cfg.announce.GetOr("open") == "open"
  }

  /** The pool a shuffled mode deals: the counted pool when any count key is present, otherwise the default pool. */
  function ShuffledPool(cfg: Config, n: nat): (pool: seq<RoleKind>)
    requires !CountKeysPresent(cfg.counts) ==> cfg.k.GetOr(4) != 0
    ensures |pool| >= n
  {
    if CountKeysPresent(cfg.counts) then CountPool(cfg.counts, n) else DefaultPool(n, cfg.k.GetOr(4))
  }

  /**
   * The roles dealt, by mode: an explicit list, per-role counts, or the default pool. The two
   * shuffled modes fail (None) for a negative number of players, where reserving the pool throws.
   */
  method DealRoles(cfg: Config) returns (alive: Option<map<int, RoleKind>>, n: int)
    requires cfg.roles.None? && !CountKeysPresent(cfg.counts) ==> cfg.k.GetOr(4) != 0
    ensures cfg.roles.Some? ==> n == cfg.players.GetOr(10) && alive.Some?
    ensures cfg.roles.Some? && alive.Some? ==> var pool := ExplicitPool(cfg.roles.value, n);
      && (forall id :: id in alive.value <==> 1 <= id <= |pool|)
      && (forall i :: 0 <= i < |pool| ==> alive.value[i + 1] == pool[i])
    ensures cfg.roles.None? && CountKeysPresent(cfg.counts) ==> n == CountPlayers(cfg.players, cfg.counts)
    ensures cfg.roles.None? && !CountKeysPresent(cfg.counts) ==> n == cfg.players.GetOr(10)
    ensures cfg.roles.None? ==> (alive.None? <==> n < 0)
    ensures cfg.roles.None? && alive.Some? ==> forall id :: id in alive.value <==> 1 <= id <= n
    ensures cfg.roles.None? && alive.Some? && n >= 0 ==> exists ids :: (IsShuffleOf(ids, n) &&
              forall i :: 0 <= i < n ==> ids[i] in alive.value && alive.value[ids[i]] == ShuffledPool(cfg, n)[i])
  {
    n := cfg.players.GetOr(10);
    if cfg.roles.Some? {
      var a := ExplicitDeal(cfg.roles.value, n);
      return Some(a), n;
    }
    if CountKeysPresent(cfg.counts) {
      n := CountPlayers(cfg.players, cfg.counts);
    }
    if n < 0 {
      return None, n;
    }
    var pool;
    if CountKeysPresent(cfg.counts) {
      pool := BuildCountPool(cfg.counts, n);
    } else {
      pool := BuildDefaultPool(n, cfg.k.GetOr(4));
    }
    var ids := ShuffledIds(n);
    var a := DealShuffled(ids, pool, n);
    alive := Some(a);
  }

  // ---------------------------------------------------------------- the human in debug mode

  /** The debug-role alias table, applied to the lower-cased setting; None when unrecognised. */
  function AliasRole(lowered: string): (r: Option<RoleKind>)
    ensures r.Some? ==> r.value != UnknownRole
  {
    if lowered == "mafia" || lowered == "maf" || lowered == "мафия" then Some(MafiaRole)
    else if lowered == "commissioner" || lowered == "comm" || lowered == "комиссар" then Some(CommissionerRole)
    else if lowered == "doctor" || lowered == "doc" || lowered == "доктор" then Some(DoctorRole)
    else if lowered == "civilian" || lowered == "civ" || lowered == "мирный" then Some(CivilianRole)
    else if lowered == "witness" || lowered == "w" || lowered == "свидетель" then Some(WitnessRole)
    else if lowered == "bull" || lowered == "бык" then Some(BullRole)
    else if lowered == "ninja" || lowered == "нинзя" || lowered == "ниндзя" then Some(NinjaRole)
    else if lowered == "maniac" || lowered == "maniak" || lowered == "маньяк" then Some(ManiacRole)
    else None
  }

  /** The first alias of each kind: its English name in lower case. */
  function AliasName(kind: RoleKind): string {
    match kind
    case MafiaRole => "mafia"
    case BullRole => "bull"
    case CommissionerRole => "commissioner"
    case DoctorRole => "doctor"
    case CivilianRole => "civilian"
    case WitnessRole => "witness"
    case NinjaRole => "ninja"
    case ManiacRole => "maniac"
    case UnknownRole => ""
  }

  /** Every named kind is recognised by its first alias. */
  lemma AliasCanonical(kind: RoleKind)
    requires kind != UnknownRole
    ensures AliasRole(AliasName(kind)) == Some(kind)
  {
  }

  /** Lower-casing a kind's English name gives its first alias, so `debug_role: Commissioner` selects the Commissioner. */
  lemma LowerEnglishName(kind: RoleKind)
    requires kind != UnknownRole
    ensures Lower(EnglishName(kind)) == AliasName(kind)
  {
    match kind
    case MafiaRole => LowerByChars("Mafia", "mafia");
    case BullRole => LowerByChars("Bull", "bull");
    case CommissionerRole => LowerByChars("Commissioner", "commissioner");
    case DoctorRole => LowerByChars("Doctor", "doctor");
    case CivilianRole => LowerByChars("Civilian", "civilian");
    case WitnessRole => LowerByChars("Witness", "witness");
    case NinjaRole => LowerByChars("Ninja", "ninja");
    case ManiacRole => LowerByChars("Maniac", "maniac");
  }

  /** Case folding is ASCII-only: a Cyrillic alias written with a capital letter is not recognised. */
  lemma CyrillicCaseKept()
    ensures AliasRole(Lower("Мафия")) == None
    ensures AliasRole(Lower("MAFIA")) == Some(MafiaRole)
  {
    LowerByChars("Мафия", "Мафия");
    LowerByChars("MAFIA", "mafia");
  }

  /** The ids dealt `want`. */
  function Holding(alive: map<int, RoleKind>, want: RoleKind): set<int> {
    set id | id in alive && alive[id] == want
  }

  /** `ks[..i]` holds no id dealt `want`, and `ks[i]` does: `ks[i]` is the least id dealt `want`. */
  lemma FirstMatchIsLeast(alive: map<int, RoleKind>, want: RoleKind, ks: seq<int>, i: int)
    requires Ascending(ks) && (forall x :: x in ks <==> x in alive) && (forall k :: 0 <= k < |ks| ==> ks[k] in alive)
    requires 0 <= i < |ks| && alive[ks[i]] == want
    requires forall j :: 0 <= j < i ==> alive[ks[j]] != want
    ensures IsMin(ks[i], Holding(alive, want))
  {
    forall id | id in alive && alive[id] == want
      ensures ks[i] <= id
    {
      var j :| 0 <= j < |ks| && ks[j] == id;
      assert j >= i;
    }
  }

  /** When no listed id is dealt `want` and the list holds every id, nobody is. */
  lemma NoMatch(alive: map<int, RoleKind>, want: RoleKind, ks: seq<int>)
    requires Ascending(ks) && (forall x :: x in ks <==> x in alive) && (forall k :: 0 <= k < |ks| ==> ks[k] in alive)
    requires forall j :: 0 <= j < |ks| ==> alive[ks[j]] != want
    ensures Holding(alive, want) == {}
  {
    forall id | id in alive
      ensures alive[id] != want
    {
      var j :| 0 <= j < |ks| && ks[j] == id;
    }
  }

  /** The head of the ascending key list is the least key. */
  lemma HeadIsLeast(alive: map<int, RoleKind>, ks: seq<int>)
    requires Ascending(ks) && (forall x :: x in ks <==> x in alive) && (forall k :: 0 <= k < |ks| ==> ks[k] in alive) && |ks| > 0
    ensures IsMin(ks[0], alive.Keys)
  {
    forall id | id in alive
      ensures ks[0] <= id
    {
      var j :| 0 <= j < |ks| && ks[j] == id;
    }
  }

  /** The loop over the players in id order that stops at the first one dealt `want`. */
  method FirstHolding(alive: map<int, RoleKind>, want: RoleKind, ks: seq<int>) returns (i: int)
    requires Ascending(ks) && (forall x :: x in ks <==> x in alive) && (forall k :: 0 <= k < |ks| ==> ks[k] in alive)
    ensures 0 <= i <= |ks|
    ensures i < |ks| ==> alive[ks[i]] == want
    ensures forall j :: 0 <= j < i ==> alive[ks[j]] != want
  {
    i := 0;
    while i < |ks| && alive[ks[i]] != want
      invariant 0 <= i <= |ks|
      invariant forall j :: 0 <= j < i ==> alive[ks[j]] != want
    {
      i := i + 1;
    }
  }

  /**
   * The human's player in debug mode: the lowest id already dealt the wanted role; if there is
   * none and some player exists, the lowest id is dealt that role instead. -1 when nobody plays.
   */
  method DebugHuman(alive: map<int, RoleKind>, want: RoleKind) returns (dealt: map<int, RoleKind>, chosen: int)
    ensures alive == map[] ==> dealt == alive && chosen == -1
    ensures alive != map[] ==> chosen in dealt && dealt[chosen] == want
    ensures dealt.Keys == alive.Keys
    ensures Holding(alive, want) != {} ==> dealt == alive && IsMin(chosen, Holding(alive, want))
    ensures alive != map[] && Holding(alive, want) == {} ==> IsMin(chosen, alive.Keys) && dealt == alive[chosen := want]
  {
    var ks := AscendingIds(alive.Keys);
    dealt, chosen := alive, -1;
    var i := FirstHolding(alive, want, ks);
    if i < |ks| {
      chosen := ks[i];
      FirstMatchIsLeast(alive, want, ks, i);
    } else {
      NoMatch(alive, want, ks);
      if |ks| > 0 {
        chosen := ks[0];
        HeadIsLeast(alive, ks);
        dealt := alive[chosen := want];
      } else {
        assert alive.Keys == {};
        assert alive == map[];
      }
    }
  }

  /**
   * The human's id: in debug mode with a recognised alias, the player `DebugHuman` settles on;
   * otherwise, when a human plays, some alive id (-1 when nobody is alive).
   */
  method ChooseHuman(cfg: Config, alive: map<int, RoleKind>) returns (dealt: map<int, RoleKind>, humanId: int)
    ensures dealt.Keys == alive.Keys
    ensures !HumanEnabled(cfg) ==> humanId == -1 && dealt == alive
    ensures HumanEnabled(cfg) && alive != map[] ==> humanId in dealt
    ensures HumanEnabled(cfg) && alive == map[] ==> humanId == -1
    ensures cfg.debug == Some(true) && alive != map[] && -1 !in alive && AliasRole(Lower(cfg.debugRole.GetOr(""))).Some? ==>
              dealt[humanId] == AliasRole(Lower(cfg.debugRole.GetOr(""))).value
    ensures cfg.debug != Some(true) || AliasRole(Lower(cfg.debugRole.GetOr(""))).None? ==> dealt == alive
    ensures cfg.debug == Some(true) && AliasRole(Lower(cfg.debugRole.GetOr(""))).Some? ==>
              var want := AliasRole(Lower(cfg.debugRole.GetOr(""))).value;
              (Holding(alive, want) != {} ==> dealt == alive && (-1 !in alive ==> IsMin(humanId, Holding(alive, want))))
              && (alive != map[] && Holding(alive, want) == {} && -1 !in alive ==>
                    IsMin(humanId, alive.Keys) && dealt == alive[humanId := want])
    ensures forall id :: id in alive && dealt[id] != alive[id] ==>
              cfg.debug == Some(true) && IsMin(id, alive.Keys)
              && AliasRole(Lower(cfg.debugRole.GetOr(""))) == Some(dealt[id]) && Holding(alive, dealt[id]) == {}
    ensures -1 !in alive ==> forall id :: id in alive && id != humanId ==> dealt[id] == alive[id]
  {
    dealt, humanId := alive, -1;
    var debug := cfg.debug.GetOr(false);
    var want := AliasRole(Lower(cfg.debugRole.GetOr("")));
    if debug && want.Some? {
      dealt, humanId := DebugHuman(alive, want.value);
    }
    if HumanEnabled(cfg) && !(debug && humanId != -1 && humanId in dealt) {
      var ks := AscendingIds(dealt.Keys);
      humanId := PickRandom(ks);
    }
  }

  // ---------------------------------------------------------------- players

  /** `make_role<Kind>()`: a fresh object of the kind's class, in its initial state. */
  method NewPlayer(kind: RoleKind) returns (p: Player)
    requires kind != UnknownRole
    ensures Kind(p) == kind && fresh(Obj(p))
  {
    match kind
    case CivilianRole => var c := new Civilian(); p := Civ(c);
    case MafiaRole => var m := new Mafia(); p := Maf(m);
    case BullRole => var b := new Bull(); p := BullP(b);
    case CommissionerRole => var c := new Commissioner(); p := Comm(c);
    case DoctorRole => var d := new Doctor(); p := Doc(d);
    case ManiacRole => var m := new Maniac(); p := Man(m);
    case WitnessRole => var w := new Witness(); p := Wit(w);
    case NinjaRole => var n := new Ninja(); p := Nin(n);
  }

  /** Every listed player has the class of the kind dealt to its id. */
  predicate KindsMatch(players: map<int, Player>, kinds: map<int, RoleKind>) {
    forall id :: id in players ==> id in kinds && Kind(players[id]) == kinds[id]
  }

  /** Adding a player of the kind dealt to its id keeps the players matching the deal. */
  lemma KindsMatchAdd(players: map<int, Player>, kinds: map<int, RoleKind>, id: int, p: Player)
    requires KindsMatch(players, kinds) && id in kinds && Kind(p) == kinds[id]
    ensures KindsMatch(players[id := p], kinds)
  {
  }

  /** One fresh player object of the class of each dealt kind. */
  method Instantiate(kinds: map<int, RoleKind>) returns (players: map<int, Player>)
    requires forall id :: id in kinds ==> kinds[id] != UnknownRole
    ensures players.Keys == kinds.Keys
    ensures forall id :: id in players ==> Kind(players[id]) == kinds[id] && fresh(Obj(players[id]))
  {
    players := map[];
    var rest := kinds.Keys;
    while rest != {}
      invariant players.Keys !! rest && players.Keys + rest == kinds.Keys
      invariant KindsMatch(players, kinds)
      invariant forall id :: id in players ==> fresh(Obj(players[id]))
      decreases |rest|
    {
      HasMember(rest);
      var id :| id in rest;
      var p := NewPlayer(kinds[id]);
      KindsMatchAdd(players, kinds, id, p);
      players := players[id := p];
      rest := rest - {id};
    }
  }
}
