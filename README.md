# Mafia: a verified model of the game's rules

This project models the text "Mafia" party game found under `mafia/`.

A host runs the game in rounds over a set of players with integer ids. By day, every alive player votes to evict one other player. By night:

- the mafia agree on a victim;
- the maniac picks a victim;
- the doctor heals one player;
- the Commissioner either inspects a player or shoots a player already found to be mafia.

The host then removes the victims the doctor did not save. The game ends when the civilians, the mafia or the maniac have won. One player may be a human, who types commands at the console.

The model covers these parts of the game:

- **Role tables** (`RoleTraits`). The role kinds, the faction of each kind, and the Russian display names with their round trip.
- **Game state** (`GameStates`). A class holding:
  - the map of alive players;
  - the roles as dealt;
  - the day votes and night choices, with their update methods;
  - the id queries. The ids come in ascending order, as a `std::map` visits them; `OrderedIds` defines that order.
- **Players** (`Roles`). One class per role, with the fields the role updates. The contracts cover:
  - the night actions and day votes of the Civilian, Mafia, Commissioner, Doctor and Maniac;
  - the Commissioner's None/Inspect/Shoot state machine, with its encoding of a shot as `-(t + 1)`;
  - the Doctor's rule against healing the same player twice in a row;
  - dispatch through a `Player` datatype, which stands for `smart_ptr<PlayerBase>` over the closed set of role classes.
- **The host.**
  - `HostView` holds the host's read-only view of the roles (`alignment_of`, `mafia_targets_for`).
  - The `Hosts` module and its `Host` class hold the rest: dealing the roles, the day's eviction, the night's kills and saves, the mafia's consensus on one target, and the win conditions.
- **The human player** (`Humans`).
  - How a console line is read.
  - Each role's acceptance rule and re-prompt loop.
  - The Commissioner's command grammar, and the choice recorded in the game state.
- **Setup** (`Setup`).
  - The whitelist of role names.
  - The three ways of composing the role pool: an explicit list, per-role counts, or the default of `max(1, N/k)` mafia, one Commissioner, one Doctor and Civilians.
  - The shuffled dealing of the pool to ids `1..N`.
  - The debug-mode alias table, and the choice of the human's id.
  - `Ascii` gives the ASCII-only case folding that `std::tolower` performs.
- **The reference-counted pointer** (`SmartPointer`). A `SmartPtr` class whose count cell is a shared `Counter` object, updated in place. The heap-cell invariant is that the count equals the number of holders.

## How randomness, input and roles are represented

**Randomness.** `choose_random`, `pick_random`, `std::shuffle` and the draw among tied mafia targets are free choices from the list the source draws from. For a shuffle, every Fisher–Yates swap index is a free choice. The contracts state membership and exclusion facts, not distributions.

**Coroutines.** Every `co_await` is a plain synchronous call. This matches the source, where the awaited task runs to completion before the caller resumes.

**Console input.** The console is a finite sequence of lines. A line is either empty or the whitespace-separated tokens it holds, and each token is an integer literal or a word.
- `std::stoi` of a line is its first token, when that is an integer in the 32-bit range; otherwise it throws.
- A re-prompt loop that reaches the end of the input yields no result.

**Dealt roles.** These are a `map<int, RoleKind>`, as `GameState::original_roles` declares. The host's constructor (mafia/src/host.cpp:14) stores each player's display name. `alignment_of` (mafia/src/host.cpp:45-52) compares names with "Мафия", "Дон" and "Маньяк". The model reads every such comparison through `RoleName(kind)`. The consequences:
- "Дон" never matches.
- The host reports the Bull and the Ninja as civilians, although the faction table `alignment_for` puts them on the mafia's side.
- `HostView.HostAlignmentAgreement` states this difference.
- The model follows the host's code here.

## Model

| member | source | states |
|---|---|---|
| RoleTraits.AlignmentFor | mafia/include/role_traits.hpp:25-41 | Mafia, Ninja and Bull are exactly the mafia faction. Maniac is exactly the maniac faction. Civilian, Commissioner, Doctor and Witness are exactly the civilian faction. Only Unknown has no faction. |
| RoleTraits.AlignmentPredicates | mafia/include/role_traits.hpp:43-99 | `is_mafia_aligned` holds exactly for Mafia, Ninja and Bull. `is_maniac` implies the Maniac faction. `prevents_maniac_kill` holds exactly for the Bull. |
| RoleTraits.RoleName | mafia/include/role_traits.hpp:71-83 | The display name is empty exactly for Unknown. |
| RoleTraits.RoleKindFromName | mafia/include/role_traits.hpp:85-95 | A kind other than Unknown is returned only for that kind's own name. |
| RoleTraits.NameRoundTrip | mafia/include/role_traits.hpp:71-95 | Naming a kind and reading the name back gives the same kind. This includes Unknown, through "". |
| RoleTraits.RoleNameInjective | mafia/include/role_traits.hpp:71-83 | Distinct kinds have distinct display names. |
| RoleTraits.UnnamedIsUnknown | mafia/include/role_traits.hpp:85-95 | Any string other than the eight names reads back as Unknown. |
| GameStates.GameState.constructor | mafia/include/game_state.hpp:15-32 | The field initialisers: no players, no human (-1), round 1, `k = 4`, open announcements, and empty votes and choices. |
| GameStates.GameState.SetVote | mafia/include/game_state.hpp:39-41 | `day_votes[from] = to`, and every other vote is kept. |
| GameStates.GameState.SetNightChoice | mafia/include/game_state.hpp:43-45 | `night_choices[from] = to`, and every other choice is kept. |
| GameStates.PickRandom | mafia/include/game_state.hpp:48-52 | -1 for an empty list; otherwise a member of the list. |
| GameStates.GameState.Ids | mafia/include/game_state.hpp:54-59 | The ids are strictly ascending and are exactly the alive players. |
| GameStates.GameState.IdsExcluding | mafia/include/game_state.hpp:61-66 | The result is the ascending listing of the alive ids without `self`, which are exactly its members. |
| OrderedIds.Sorted | mafia/include/game_state.hpp:54-59 | A set listed as a std::map visits its keys: strictly ascending, with the same members and the same size. |
| OrderedIds.AscendingIds | mafia/include/game_state.hpp:54-59 | The keys of a std::map as its iteration yields them: an ascending sequence of exactly those keys. |
| OrderedIds.AscendingUnique | mafia/include/game_state.hpp:54-59 | Two ascending sequences with the same members are equal. So the key order is determined by the key set. |
| OrderedIds.Without | mafia/include/game_state.hpp:61-66 | Filtering one id out keeps every other member, and keeps an ascending sequence ascending. |
| OrderedIds.SortedWithout | mafia/include/game_state.hpp:61-66 | `ids_excluding(self)` is `ids()` with `self` removed and the order kept. |
| GameStates.UncountedPlayer | mafia/include/game_state.hpp:68-100 | An alive id with no dealt role, or with the Unknown role, is counted by none of the three faction counters. |
| GameStates.CountsBounded | mafia/include/game_state.hpp:68-100 | Mafia, maniac and civilian counts together never exceed the number of alive players. |
| Roles.ChooseRandom | mafia/include/roles.hpp:55-61 | `int{}` (0) for an empty vector; otherwise one of its elements. |
| Roles.DrawOrPass | mafia/src/roles.cpp:11-12 | -1 for an empty id list; otherwise one of its ids. |
| Roles.VoteOther | mafia/src/roles.cpp:10-14 | Some alive player other than the voter, or -1 when nobody else is alive. |
| Roles.Civilian.constructor | mafia/include/roles.hpp:64-65 | The target starts at -1. |
| Roles.Civilian.Vote | mafia/src/roles.cpp:10-14 | The target becomes some other alive player, or -1 when there is none. |
| Roles.Mafia.constructor | mafia/include/roles.hpp:87-88 | The target starts at -1. |
| Roles.Mafia.Act | mafia/src/roles.cpp:22-28 | Outside the mafia phase the target is unchanged. In the mafia phase it becomes an alive player who is not the actor and not reported as mafia, or -1 when there is none. |
| Roles.Mafia.Vote | mafia/src/roles.cpp:30-34 | The target becomes some other alive player, or -1 when there is none. |
| Roles.Bull.constructor | mafia/include/roles.hpp:110-111 | The target starts at -1. |
| Roles.Commissioner.constructor | mafia/include/roles.hpp:133-141 | All four id fields start at -1, `known_civ` is empty, and the state is None. |
| Roles.DecodeOrder | mafia/src/roles.cpp:87-105 | A decoded shot names an id of at least 1, and a decoded inspection names an id of at least 0. |
| Roles.EncodeDecode | mafia/src/roles.cpp:87-105 | Every integer is the encoding of the order it decodes to. |
| Roles.DecodeEncode | mafia/src/human.cpp:116-122 | Every order the decoder can produce survives encoding, as the human's Commissioner writes it, followed by decoding. |
| Roles.Commissioner.NightActionTarget | mafia/src/roles.cpp:111-113 | The inspected id in state Inspect, and -1 in every other state. |
| Roles.Commissioner.NightShotTarget | mafia/src/roles.cpp:115-117 | The shot id in state Shoot, and -1 in every other state. |
| Roles.AtMostOneNightTarget | mafia/src/roles.cpp:111-117 | At most one of the two night targets is set. |
| Roles.Commissioner.SetTarget | mafia/src/roles.cpp:87-105 | The state becomes the order the argument decodes to: -1 gives None with both night targets -1; `t <= -2` shoots `-(t + 1)`, which also becomes the day target; `t >= 0` inspects `t`. The day target is kept unless the order is a shot. |
| Roles.Commissioner.SetKill | mafia/src/roles.cpp:107 | `kill_target = t`, and no other field changes. |
| Roles.Commissioner.Act | mafia/src/roles.cpp:42-76 | Outside the mafia phase nothing changes. A dead kill target is forgotten. A live one is shot. Otherwise an alive player other than the Commissioner is inspected, preferring one not known to be civilian, and the state stays None exactly when nobody else is alive. |
| Roles.ChooseInspection | mafia/src/roles.cpp:61-73 | Found exactly when another player is alive. The choice is alive and not the Commissioner. It is not a known civilian when such a player exists. |
| Roles.RemoveKnown | mafia/src/roles.cpp:62-64 | The `erase`/`remove_if` filter keeps exactly the ids that are not known civilians. |
| Roles.Commissioner.Vote | mafia/src/roles.cpp:78-83 | The day target becomes the kill target when one is set, and stays as it was otherwise. |
| Roles.Commissioner.ApplyInspectionResult | mafia/src/roles.cpp:119-133 | A no-op unless in state Inspect with an id. A Mafia report sets the kill target and drops the id from `known_civ`. A Civilian or Maniac report adds the id to `known_civ`. An Unknown report changes nothing. |
| Roles.Doctor.constructor | mafia/include/roles.hpp:168-170 | `target` and `prev` start at -1. |
| Roles.Doctor.Act | mafia/src/roles.cpp:135-146 | With nobody alive nothing changes. Otherwise the heal goes to an alive player and becomes both `target` and `prev`. It differs from the previous heal whenever more than one player is alive. |
| Roles.Doctor.Vote | mafia/src/roles.cpp:148-152 | The target becomes some other alive player, or -1 when there is none. |
| Roles.Maniac.constructor | mafia/include/roles.hpp:192-193 | The target starts at -1. |
| Roles.Maniac.Act | mafia/src/roles.cpp:160-164 | In every phase, the target becomes some other alive player, or -1 when there is none. |
| Roles.Maniac.Vote | mafia/src/roles.cpp:166-170 | The target becomes some other alive player, or -1 when there is none. |
| Roles.Witness.constructor | mafia/include/roles.hpp:215-217 | `observed` and `vote_choice` start at -1. |
| Roles.Ninja.constructor | mafia/include/roles.hpp:239-240 | The target starts at -1. |
| Roles.Role | mafia/include/roles.hpp:42 | A player's display name reads back as the kind of its class. |
| Roles.NightActionTarget | mafia/include/roles.hpp:37 | Every defined role but the Commissioner has its `get_target()` as its night target. A Commissioner not in state Inspect has none (-1). |
| Roles.NightShotTarget | mafia/include/roles.hpp:39 | Only the Commissioner has a night shot, and only in state Shoot. Every other role's is -1. |
| Roles.SetTarget | mafia/include/roles.hpp:34 | The Commissioner decodes the argument as its order: a shot also becomes its day target, any other order keeps the target, and the kill target and known civilians are kept. Every other defined role stores the argument as its target, and the Doctor keeps its previous heal. |
| Roles.SetKill | mafia/include/roles.hpp:35 | Only the Commissioner stores the kill target, and nothing else of it changes. For every other role the default is a no-op. |
| Roles.Act | mafia/include/roles.hpp:21-26 | Each role's night action, as its class states it. A Civilian changes nothing. A Mafia player picks its prey in the mafia phase only. The Commissioner shoots a live kill target or else inspects another alive player, preferring one not known as civilian. The Doctor heals an alive player, not the previous one while two or more are alive. The Maniac picks another alive player. |
| Roles.Vote | mafia/include/roles.hpp:28-32 | Each role's day vote. Every role but the Commissioner votes for some other alive player, or -1 when there is none, and the Doctor keeps its previous heal. The Commissioner votes for its kill target when one is set, keeps its target otherwise, and changes nothing else. |
| HostView.AlignmentOf | mafia/src/host.cpp:40-53 | Unknown exactly when no role was dealt. Mafia exactly for the Mafia role. Maniac exactly for the Maniac role. Civilian for every other dealt role. |
| HostView.HostAlignmentAgreement | mafia/src/host.cpp:40-53 | The host agrees with the faction table exactly for kinds other than Bull, Ninja and Unknown. The Bull and the Ninja are on the mafia's side but reported as civilians. |
| HostView.Targets | mafia/src/host.cpp:30-36 | The filter keeps exactly the ids other than the requester that are not reported as mafia, and keeps an ascending sequence ascending. |
| HostView.MafiaTargetsFor | mafia/src/host.cpp:27-38 | Ascending, and exactly the alive ids other than the requester that are not reported as mafia. |
| Hosts.OriginalRoles | mafia/src/host.cpp:11-16 | Every alive player, and nobody else, gets the kind of its own class. |
| Hosts.Host.constructor | mafia/src/host.cpp:10-17 | The keys of `original_roles` are exactly the alive players, and each maps to the role of its class. |
| Hosts.Tally | mafia/src/host.cpp:100-103 | A target has a tally exactly when it is a real id with at least one ballot, and its tally is its number of ballots. |
| Hosts.BallotCast | mafia/src/host.cpp:100-103 | A value is among the ballots exactly when some voter cast it. |
| Hosts.FirstMax | mafia/src/host.cpp:110-112 | `std::max_element` in key order picks a key with the highest count, and every smaller key has fewer votes. |
| Hosts.MostVoted | mafia/src/host.cpp:100-112 | Nobody is evicted exactly when every vote is an abstention. Otherwise the evicted id has the most votes, and ties go to the smallest id. |
| Hosts.EvictedUnique | mafia/src/host.cpp:110-112 | At most one player meets the eviction rule for a set of votes. |
| Hosts.Host.ResolveDay | mafia/src/host.cpp:97-121 | The most-voted player, smallest on a tie, is removed, or nobody when all abstain. No one else is removed, and the day votes are cleared. |
| Hosts.FirstMafiaTargetIsFirst | mafia/src/host.cpp:132-137 | The night's mafia target is that of the first Mafia-class player in id order whose target is set. It is -1 exactly when none is set. |
| Hosts.LastOfKind | mafia/src/host.cpp:138-147 | A found id is alive and of the kind sought. |
| Hosts.LastOfKindIsLast | mafia/src/host.cpp:138-147 | The id found is the last of its kind in the scan, and none is found exactly when no player of that kind is scanned. |
| Hosts.RoleIs | mafia/src/host.cpp:133-142 | A player's role name equals the name of a kind exactly when the player is of that kind. |
| Hosts.NightRole | mafia/src/host.cpp:133-146 | The name comparisons select exactly the Mafia, Maniac, Doctor and Commissioner classes. |
| Hosts.NightOver | mafia/src/host.cpp:132-148 | A Commissioner found by the scan is alive and of the Commissioner class. |
| Hosts.NightOf | mafia/src/host.cpp:132-148 | The same, for the scan over all alive players in ascending order. |
| Hosts.CollectNight | mafia/src/host.cpp:132-148 | The loop that compares role names yields the night defined by `NightOver`. |
| Hosts.Host.GatherNight | mafia/src/host.cpp:132-148 | The scan of the alive players yields `NightOf(alive)`. |
| Hosts.Host.Inform | mafia/src/host.cpp:169-199 | When the Commissioner inspected and did not shoot, it learns the result as `apply_inspection_result` defines it. Every other Commissioner object is unchanged. |
| Hosts.KillsRemoveVictims | mafia/src/host.cpp:204-219 | The three kills, in their order, remove exactly the victims: the set mafia, maniac and shot targets other than the doctor's. |
| Hosts.KillsRemoveVictimsMap | mafia/src/host.cpp:204-219 | The same on the map of alive players. |
| Hosts.NightCasualties | mafia/src/host.cpp:204-219 | At most three players die in a night. The doctor's target, and every player who is not a target, survives. |
| Hosts.Host.KillOne | mafia/src/host.cpp:204-215 | The kill lambda: -1 and the doctor's target are no-ops. Any other alive target is removed, and nothing else changes. |
| Hosts.Host.KillAll | mafia/src/host.cpp:217-219 | The alive players after the three kills are the old ones minus the victims. |
| Hosts.Host.ResolveNight | mafia/src/host.cpp:123-220 | Returns the night gathered from the old state. Removes exactly its victims. The Commissioner learns the inspection result when it inspected and did not shoot. Every other Commissioner object is unchanged. |
| Hosts.MafiaOrder | mafia/src/host.cpp:327-328 | Exactly the listed ids reported as mafia, with an ascending order kept. |
| Hosts.FilterMafia | mafia/src/host.cpp:327-328 | The collecting loop yields `MafiaOrder`. |
| Hosts.MafiaOrderIsMafia | mafia/src/host.cpp:327-328 | When every player was dealt its own class's role, every id reported as mafia is an alive Mafia-class player. |
| Hosts.Host.MafiaIdsInOrder | mafia/src/host.cpp:327-328 | `mafia_ids` is ascending, holds exactly the alive ids reported as mafia, and all of them are Mafia-class players. |
| Hosts.ChosenOf | mafia/src/host.cpp:330-334 | The chosen targets never include -1 and are no more than the mafia players. |
| Hosts.Host.Chosen | mafia/src/host.cpp:330-334 | The collecting loop yields `ChosenOf`. |
| Hosts.CountChoices | mafia/src/host.cpp:336-342 | `cnt` has exactly the chosen targets, each with its number of choices. `bestc` is the highest of these counts and is reached. |
| Hosts.TopChoices | mafia/src/host.cpp:344-348 | The candidates are exactly the choices whose count is the highest. |
| Hosts.ConsensusTarget | mafia/src/host.cpp:336-357 | The final target is chosen, and chosen at least as often as any other target. |
| Hosts.Host.SetAllTargets | mafia/src/host.cpp:366-368 | Every mafia player listed takes the final target. |
| Hosts.Host.AgreeOnTarget | mafia/src/host.cpp:329-369 | With at least two mafia of whom one chose, all of them take a most-chosen target. Otherwise no target changes. |
| Hosts.Host.MafiaConsensus | mafia/src/host.cpp:326-371 | The whole consensus block. With at least two alive mafia and at least one choice, every alive mafia player shares one target, and that target was chosen most often. Otherwise every mafia target is unchanged. |
| Hosts.VerdictIff | mafia/src/host.cpp:223-241 | The game is over exactly when there is no mafia and no maniac, or the mafia are at least as many as the civilians, or one maniac faces one civilian with no mafia. A maniac win means exactly that last case. |
| Hosts.Host.GameOver | mafia/src/host.cpp:223-241 | `game_over()` is the verdict on the three faction counts of the alive players. While it is false, at least two players are alive. |
| Hosts.GameContinues | mafia/src/host.cpp:223-241 | While the game goes on, civilians outnumber mafia, someone plays against the civilians, and at least two players are alive. |
| Humans.RoleNameFor | mafia/src/host.cpp:64-70 | The name reads back as the dealt role, and is empty when no role was dealt. |
| Humans.Next | mafia/src/human.cpp:6-12 | One line is read, after skipping one empty line waiting at the console. An exhausted console reads as an empty line. |
| Humans.Stoi | mafia/src/human.cpp:45 | A value exactly when the line starts with an integer in the 32-bit range, and then it is that integer. |
| Humans.Parsed | mafia/src/human.cpp:43-46 | An empty line keeps the previous value. Otherwise the result is the parsed integer, or -1 when parsing throws. |
| Humans.DayVote | mafia/src/human.cpp:42-52 | The recorded vote is the id typed when it is alive and not the human's own, and -1 otherwise. |
| Humans.HumanDay | mafia/src/human.cpp:20-54 | The human's day vote is recorded as `DayVote` defines it, and no other vote changes. |
| Humans.Extract | mafia/src/human.cpp:103-108 | `iss >> t` succeeds exactly on an in-range integer token, and then stores it. A word stores 0; at the end of the line nothing is stored and `t` stays -1. What `t` holds is always a 32-bit integer. |
| Humans.ParseCommand | mafia/src/human.cpp:80-110 | The command is a shot exactly when its first word is `s` or `shoot` in any ASCII case. An empty command reads no id. After a keyword the next integer is the id; a word after the keyword gives 0, nothing after it leaves -1, and an out-of-range integer gives the nearest 32-bit bound. A -1 there makes the parser read one more id when input follows. A bare id is an inspection of that id. A first token that gives no id makes the parser read the next token. |
| Humans.ValidTarget | mafia/src/human.cpp:111-113 | The id is kept exactly when it is positive, alive and not the human's own, and -1 replaces it otherwise. |
| Humans.CommandRoundTrip | mafia/src/human.cpp:116-122 | `Commissioner::set_target` decodes the recorded choice as the command given: a shot at the validated id, an inspection of it, or no order when it was rejected. |
| Humans.CommandTargetsValid | mafia/src/human.cpp:111-122 | Whatever was typed, the decoded order names a positive, alive id other than the human's own, or is no order. |
| Humans.ShootExample | mafia/src/human.cpp:90-104 | `s 4` shoots player 4. |
| Humans.ShootAfterMinusOneExample | mafia/src/human.cpp:102-109 | `SHOOT -1 5` shoots player 5: the -1 makes the parser read one more id. |
| Humans.InspectExample | mafia/src/human.cpp:94-97 | A bare `2` inspects player 2. |
| Humans.SelfTargetExample | mafia/src/human.cpp:111-113 | `s 1` from human 1 gives no order. |
| Humans.FirstAccepted | mafia/src/human.cpp:178-185 | A value accepted by a re-prompt loop is always acceptable. |
| Humans.FirstAcceptedSteps | mafia/src/human.cpp:178-185 | A first line holding an acceptable id is taken at once. An empty line keeps the rejected value and reads on. |
| Humans.RePrompt | mafia/src/human.cpp:145-159 | The `while (true)` loop returns `FirstAccepted` of the input, which is always acceptable. |
| Humans.DoctorAccepts | mafia/src/human.cpp:150-157 | The Doctor accepts exactly the alive ids, except last night's heal while more than one player is alive. |
| Humans.OthersAlive | mafia/src/human.cpp:183 | The Maniac and the Witness accept exactly the alive ids other than their own. |
| Humans.MafiaChoice | mafia/src/human.cpp:235-243 | The choice is an alive id not reported as mafia, or -1. It is the id typed whenever that id qualifies. |
| Humans.HumanNight | mafia/src/human.cpp:56-255 | Dispatches on the display name of the dealt role. A Civilian records nothing. A Commissioner records the encoded command. The Doctor, the Maniac and the Witness record what the re-prompt loop accepts, or nothing when input runs out. The Mafia and the Bull record `MafiaChoice`. Any other role records the parsed id. |
| Humans.NightChoicesValid | mafia/src/human.cpp:145-243 | The Doctor never records last night's heal while others live. The Maniac and the Witness record an alive id other than their own. The Mafia and the Bull record a non-mafia alive id or -1. |
| Ascii.LowerChar | mafia/src/human.cpp:89 | `std::tolower` in the C locale changes only 'A'..'Z', by +32. |
| Ascii.Lower | mafia/src/main.cpp:134-137 | Same length, each character lower-cased. |
| Ascii.LowerIdempotent | mafia/src/main.cpp:134-137 | Lower-casing twice is lower-casing once. |
| Setup.MakeRole3 | mafia/src/main.cpp:17-27 | A role exactly for the eight whitelisted English names, and it is the kind of that name. Any other name gives an empty pointer. |
| Setup.MakeRole3RoundTrip | mafia/src/main.cpp:17-27 | Every named kind's English name is whitelisted and read back as that kind. "Don" is refused. |
| Setup.Accepted | mafia/src/main.cpp:62-71 | The accepted roles are no more than the names, and none of them is Unknown. |
| Setup.AcceptedWhitelisted | mafia/src/main.cpp:62-71 | A list of whitelisted names is accepted whole and in order. |
| Setup.AcceptedSkips | mafia/src/main.cpp:64-68 | An unsupported name adds nothing. |
| Setup.ExplicitPool | mafia/src/main.cpp:61-75 | The accepted roles come first, in order, then Civilians, until there are `max(N, accepted)` players. |
| Setup.DealAccepted | mafia/src/main.cpp:62-71 | The accepted roles go to ids 1, 2, … in order. |
| Setup.FillWithCivilians | mafia/src/main.cpp:72-75 | Earlier ids are kept, and Civilians fill the next ids until `N` players exist. |
| Setup.ExplicitDeal | mafia/src/main.cpp:61-75 | Id `i + 1` holds entry `i` of the explicit pool, and there are no other ids. |
| Setup.Clamp | mafia/src/main.cpp:78-85 | An absent or negative count is 0. Any other count is kept. |
| Setup.CountPlayers | mafia/src/main.cpp:87-91 | `players` when it is present. Otherwise the sum of the counts when that is positive, and 10 when it is not. |
| Setup.Counted | mafia/src/main.cpp:95-102 | As many counted roles as the clamped counts add up to. |
| Setup.CountedHolds | mafia/src/main.cpp:95-102 | Each kind occurs in the counted roles exactly as often as its clamped count. |
| Setup.Append | mafia/src/main.cpp:95-102 | One `emplace_back` loop appends `count` copies of its kind. |
| Setup.PadWithCivilians | mafia/src/main.cpp:103 | The padding loop appends exactly enough Civilians to reach `N`. |
| Setup.CountPool | mafia/src/main.cpp:93-103 | The count-mode pool has at least `N` roles, and at least as many as the counts add up to. |
| Setup.BuildCountPool | mafia/src/main.cpp:93-103 | The loops build `CountPool`. |
| Setup.CountPoolHolds | mafia/src/main.cpp:78-103 | Each kind occurs as often as its clamped count, and Civilians also fill the pool up to `N`. |
| Setup.DefaultMafia | mafia/src/main.cpp:114 | `max(1, N / k)`: at least one, and exactly `N / k` when `k > 0` and `N >= k`. |
| Setup.NonNegativeQuotient | mafia/src/main.cpp:114 | For a non-negative `N`, Dafny's Euclidean division agrees with C++'s truncating `/`. |
| Setup.DefaultPool | mafia/src/main.cpp:114-121 | The default pool has at least `N` roles and at least three. |
| Setup.DefaultPoolHolds | mafia/src/main.cpp:114-121 | The default pool holds `max(1, N / k)` Mafia, one Commissioner, one Doctor, Civilians for the rest, and nothing else. |
| Setup.BuildDefaultPool | mafia/src/main.cpp:116-121 | The loops build `DefaultPool`. |
| Setup.SwapKeepsShuffle | mafia/src/main.cpp:123-126 | Exchanging two entries of a permutation of `1..N` leaves a permutation of `1..N`. |
| Setup.ShuffledIds | mafia/src/main.cpp:123-126 | `ids = 1..N` followed by `std::shuffle` lists each of `1..N` exactly once. |
| Setup.DealShuffled | mafia/src/main.cpp:128-130 | Each id in `1..N`, and nothing else, gets the pool entry at its shuffled position. |
| Setup.DealtCounts | mafia/src/main.cpp:105-112 | Each kind is dealt exactly as often as it occurs among the first `N` pool entries. |
| Setup.HumanEnabled | mafia/src/main.cpp:44-51 | Debug mode forces a human. Otherwise the `human` key decides, with false as the default. |
| Setup.AnnounceOpen | mafia/src/main.cpp:45 | Announcements are open exactly when the key is absent or is "open". |
| Setup.ShuffledPool | mafia/src/main.cpp:76-121 | The pool of either shuffled mode has at least `N` roles. |
| Setup.DealRoles | mafia/src/main.cpp:61-131 | The roles dealt, by mode. The explicit list is dealt in order. Count mode and default mode deal a shuffle of their pool to `1..N`, with `N` as each mode computes it. A negative `N` fails there. |
| Setup.AliasRole | mafia/src/main.cpp:139-166 | A recognised alias names one kind other than Unknown. Any other text is unrecognised. |
| Setup.AliasCanonical | mafia/src/main.cpp:142-166 | Every kind is recognised by its first alias. |
| Setup.LowerEnglishName | mafia/src/main.cpp:134-145 | Lower-casing a kind's English name gives its first alias. |
| Setup.CyrillicCaseKept | mafia/src/main.cpp:134-142 | "Мафия" with a capital letter is not recognised, because the folding is ASCII-only. "MAFIA" is recognised. |
| Setup.FirstHolding | mafia/src/main.cpp:183-188 | The loop stops at the first id holding the role, and every earlier id does not hold it. |
| Setup.FirstMatchIsLeast | mafia/src/main.cpp:183-188 | The first match in ascending order is the least id holding the role. |
| Setup.DebugHuman | mafia/src/main.cpp:182-199 | The human is the lowest id holding the wanted role. If nobody holds it, the lowest id is dealt that role instead. With no players, no id is chosen. |
| Setup.ChooseHuman | mafia/src/main.cpp:133-214 | Without a human the id is -1. Otherwise it is an alive id, or -1 with nobody alive. Outside debug mode, or with an unrecognised alias, the roles are unchanged. In debug mode with a recognised alias, the human is the least holder of the aliased role with the roles unchanged, or else the least id, which alone is re-dealt that role. No other id's role changes. |
| Setup.NewPlayer | mafia/include/roles.hpp:49-52 | `make_role<Kind>()` creates a fresh object of the kind's class. |
| Setup.Instantiate | mafia/src/main.cpp:95-103 | Each dealt id gets one fresh player object of the class of its kind. |
| SmartPointer.Counter.constructor | mafia/include/smart_ptr.hpp:26 | `new unsigned(1)`: a count of 1. |
| SmartPointer.SmartPtr.Empty | mafia/include/smart_ptr.hpp:26 | A null pointer that still owns a fresh count of 1. |
| SmartPointer.SmartPtr.FromRaw | mafia/include/smart_ptr.hpp:29 | The sole owner of `p`, with a fresh count of 1. |
| SmartPointer.SmartPtr.Copy | mafia/include/smart_ptr.hpp:32 | Shares the address and the count cell, and raises the count by exactly 1. |
| SmartPointer.SmartPtr.Move | mafia/include/smart_ptr.hpp:35-39 | Takes over the address and the cell, with the count unchanged. The source ends null with `use_count() == 0`. |
| SmartPointer.Counter.Handover | mafia/include/smart_ptr.hpp:85-86 | A cell passed from one holder to another keeps its count and stays valid. |
| SmartPointer.SmartPtr.TakeFrom | mafia/include/smart_ptr.hpp:58-59 | An empty pointer takes over another's address and cell, and the other ends empty. |
| SmartPointer.SmartPtr.Release | mafia/include/smart_ptr.hpp:12-22 | The count drops by one. The object and the cell are deleted exactly when it reaches zero. The pointer ends empty. A pointer that was moved from is a no-op. |
| SmartPointer.SmartPtr.CopyAssign | mafia/include/smart_ptr.hpp:42-50 | A no-op on itself. Otherwise the old share is released once and the new count is raised once, or kept when both already share one cell. A released cell loses this pointer as a holder and keeps the count-equals-holders invariant. |
| SmartPointer.SmartPtr.Join | mafia/include/smart_ptr.hpp:45-47 | An empty pointer joins another's cell, whose count grows by one. |
| SmartPointer.SmartPtr.MoveAssign | mafia/include/smart_ptr.hpp:53-62 | A no-op on itself. Otherwise the old share is released and the source's address and cell are taken over, leaving the source empty. The taken cell's holders swap the source for this pointer. A released cell loses this pointer as a holder and keeps the count-equals-holders invariant. |
| SmartPointer.SmartPtr.Reset | mafia/include/smart_ptr.hpp:75-79 | Releases the old share; afterwards `get() == p` with a fresh count of 1. |
| SmartPointer.SmartPtr.Swap | mafia/include/smart_ptr.hpp:82-87 | Exchanges the addresses and the cells, and with them the two use counts. |
| SmartPointer.SmartPtr.SwapCells | mafia/include/smart_ptr.hpp:85-86 | When two pointers hold different cells, each cell changes holder and keeps its count. |
| SmartPointer.SmartPtr.UseCount | mafia/include/smart_ptr.hpp:90 | The count is 0 exactly for a pointer without a cell. |
| SmartPointer.SmartPtr.Equals | mafia/include/smart_ptr.hpp:93-95 | Two pointers are equal exactly when they manage the same address, whatever their counts. |

## Left out

- The coroutine machinery of mafia/include/task.hpp and mafia/include/signals.hpp is not modelled. Every `co_await` is modelled as a synchronous call.
- The older inline `async_input` and `human_loop` in mafia/include/human.hpp are not modelled, and neither is its thread-based `FutureAwaiter`. Only mafia/src/human.cpp is modelled.
- The logger (mafia/include/logger.hpp, mafia/src/logger.cpp) is left out because it is file output.
- Console output is left out: `announce`, every `std::cout` message, `alignment_to_string`, the announcement of a split mafia vote, and the summary printed after setup.
- `Host::run` is not modelled as a whole. Its per-player act and vote loops are only sequencing of the modelled operations, and so is the step that applies `night_choices` through `set_target`. The consensus block inside it is modelled.
- `Host::day_discussion` is not modelled, because it only prints.
- YAML loading is abstracted as a `Config` value whose absent keys are None. A value of the wrong type, which makes `as<T>()` throw, is not modelled.
- The random generators are not modelled: `mt19937`, `random_device`, the `thread_local` generator and `std::shuffle`'s draws. Each draw is a free choice from the list it draws from.
- The `do`/`while` retry loop in `Doctor::act` is not modelled as a loop. It is modelled as a free choice among the acceptable ids, which is where the loop ends whenever it ends.
- The `act`, `vote`, `set_target`, `get_target` and `role()` of the Bull, the Witness and the Ninja are declared but not defined. Dispatch on `act`, `vote`, `set_target` and `get_target` requires a defined role, and only their initial state is modelled.
- Roles.Role: the Bull, the Witness and the Ninja have no definition of `role()` (mafia/src/roles.cpp defines it only for the other five classes, at lines 16, 36, 85, 154 and 172). The model assumes that they would return their display names from `RoleTraits.RoleName`: "Бык", "Свидетель" and "Ниндзя". The host's constructor, the name scan of the night and `HostView.HostAlignmentAgreement` rest on that assumption for these three roles.
- The witness and debug fields of `GameState` (`witness_target`, `witness_observer`, `witness_message`, `last_killer`, `mafia_last_votes`, `mafia_final_target`, `mafia_choice_random`) are not modelled, because the game logic never uses them.
- Humans.Next: console lines are abstracted as tokens that are integer literals or words. A token that mixes digits and letters, and the exact whitespace and end-of-stream behaviour of `istringstream`, are not modelled.
- Humans.RePrompt: the source waits for input forever. The model stops with no result when its finite input runs out.
- SmartPointer.SmartPtr.Copy: requires that the source holds a count cell. Copying from a pointer that was moved from dereferences a null `cnt` (mafia/include/smart_ptr.hpp:32), which is undefined behaviour, so that case is not modelled.
- SmartPointer.SmartPtr.CopyAssign: requires, for distinct pointers, that the source holds a count cell. Assigning from a pointer that was moved from dereferences a null `cnt` (mafia/include/smart_ptr.hpp:47), which is undefined behaviour, so that case is not modelled.
- SmartPointer.SmartPtr.Release: the reference count is an unbounded `nat`, so a 32-bit `unsigned` overflow of the count is not modelled. Deletion is reported as a result, not performed.
- Setup.CountPlayers: `int` overflow of `sum_counts` and of `N` is not modelled, because the counts are unbounded integers.
- Setup.DealRoles: requires `k != 0` in default mode, where the source divides by `k`. A negative `N` is modelled as the failure of `reserve`.
- Setup.Instantiate: creates the player objects of the dealt kinds in an order that is left unspecified. The source creates them in pool order, and the order of allocation is not observable in the game.
- Hosts.Host.constructor: the source stores `role()` strings into a map of `RoleKind`. The model stores the kind those strings name, which by `RoleTraits.NameRoundTrip` is the kind of the player's class.
