/**
 * The salts that the test runner hands out for media device identifiers: one per origin and frame,
 * or one per origin once the origin has permission, until the next reset.
 */
module DeviceSalts {
  import opened Wrappers

  datatype Settings = Settings(ephemeralSalts: map<nat, string>, persistentSalt: string, persistentPermission: bool)

  type Permissions = map<string, Settings>

  const NEW_SETTINGS := Settings(map[], "", false)

  function Get(p: Permissions, origin: string): Settings {
    if origin in p then p[origin] else NEW_SETTINGS
  }

  function FrameSalt(s: Settings, frame: nat): string {
    if frame in s.ephemeralSalts then s.ephemeralSalts[frame] else ""
  }

  /** Asking for a salt (with the identifier that would be generated), setting a permission, resetting. */
  datatype Event =
    | Ask(origin: string, frame: nat, uuid: string)
    | SetPermission(origin: string, permission: bool)
    | Reset

  /** The settings after asking, and the salt returned. */
  function SaltForOrigin(p: Permissions, origin: string, frame: nat, uuid: string): (Permissions, string) {
    var s := Get(p, origin);
    var frameSalt := FrameSalt(s, frame);
    if s.persistentPermission then
      if frameSalt != "" then (p[origin := s], frameSalt)
      else if s.persistentSalt == "" then (p[origin := s.(persistentSalt := uuid)], uuid)
      else (p[origin := s], s.persistentSalt)
    else if frameSalt == "" then
      (p[origin := s.(ephemeralSalts := s.ephemeralSalts[frame := uuid])], uuid)
    else (p[origin := s], frameSalt)
  }

  function After(p: Permissions, e: Event): Permissions {
    match e
    case Ask(origin, frame, uuid) => SaltForOrigin(p, origin, frame, uuid).0
    case SetPermission(origin, permission) => p[origin := Get(p, origin).(persistentPermission := permission)]
    case Reset => map[]
  }

  /** The settings after a run. */
  function Run(events: seq<Event>): Permissions {
    if events == [] then map[] else After(Run(events[..|events| - 1]), events[|events| - 1])
  }

  /** The salt that event `i` of the run returned. */
  function Returned(events: seq<Event>, i: nat): string
    requires i < |events| && events[i].Ask?
  {
    SaltForOrigin(Run(events[..i]), events[i].origin, events[i].frame, events[i].uuid).1
  }

  // ----- where a salt is kept -----

  /** The place of a salt: how many resets came before, the origin, and the frame if it is the frame's own. */
  datatype Place = Place(resets: nat, origin: string, frame: Option<nat>)

  function Resets(events: seq<Event>): nat {
    if events == [] then 0
    else Resets(events[..|events| - 1]) + if events[|events| - 1].Reset? then 1 else 0
  }

  /** Whether asking for the frame's salt gives the origin's persistent one. */
  predicate GivesPersistent(p: Permissions, origin: string, frame: nat) {
    Get(p, origin).persistentPermission && FrameSalt(Get(p, origin), frame) == ""
  }

  function PlaceOf(events: seq<Event>, i: nat): Place
    requires i < |events| && events[i].Ask?
  {
    Place(Resets(events[..i]), events[i].origin,
          if GivesPersistent(Run(events[..i]), events[i].origin, events[i].frame) then None else Some(events[i].frame))
  }

  /** The salt kept at a place, empty if there is none. */
  function Kept(p: Permissions, origin: string, frame: Option<nat>): string {
    match frame
    case None => Get(p, origin).persistentSalt
    case Some(f) => FrameSalt(Get(p, origin), f)
  }

  function KeptAt(events: seq<Event>, place: Place): string {
    if place.resets == Resets(events) then Kept(Run(events), place.origin, place.frame) else ""
  }

  /** The identifiers generated are not empty and all different. */
  predicate FreshIds(events: seq<Event>) {
    && (forall i | 0 <= i < |events| && events[i].Ask? :: events[i].uuid != "")
    && (forall i, j | 0 <= i < j < |events| && events[i].Ask? && events[j].Ask? :: events[i].uuid != events[j].uuid)
  }

  // ----- one step -----

  /** What one event does to a kept salt: it stays, or it was empty and is the new identifier. */
  lemma StepKeeps(p: Permissions, e: Event, origin: string, frame: Option<nat>)
    requires !e.Reset?
    ensures Kept(p, origin, frame) != "" ==> Kept(After(p, e), origin, frame) == Kept(p, origin, frame)
    ensures Kept(After(p, e), origin, frame) == Kept(p, origin, frame)
            || (e.Ask? && e.origin == origin && Kept(After(p, e), origin, frame) == e.uuid
                && frame == if GivesPersistent(p, origin, e.frame) then None else Some(e.frame))
  {
  }

  /** Asking returns what is then kept at the place asked. */
  lemma AskReturnsKept(p: Permissions, e: Event)
    requires e.Ask?
    ensures SaltForOrigin(p, e.origin, e.frame, e.uuid).1
            == Kept(After(p, e), e.origin, if GivesPersistent(p, e.origin, e.frame) then None else Some(e.frame))
    ensures e.uuid != "" ==> SaltForOrigin(p, e.origin, e.frame, e.uuid).1 != ""
  {
  }

  // ----- whole runs -----

  lemma {:induction false} ResetsGrow(events: seq<Event>, i: nat, j: nat)
    requires i <= j <= |events|
    ensures Resets(events[..i]) <= Resets(events[..j])
    decreases j
  {
    if i < j {
      ResetsGrow(events, i, j - 1);
      assert events[..j][..j - 1] == events[..j - 1];
    }
  }

  /** A salt once kept stays until a reset. */
  lemma {:induction false} SaltsStay(events: seq<Event>, i: nat, j: nat, place: Place)
    requires i <= j <= |events| && Resets(events[..i]) == Resets(events[..j]) == place.resets
    requires KeptAt(events[..i], place) != ""
    ensures KeptAt(events[..j], place) == KeptAt(events[..i], place)
    decreases j
  {
    if i < j {
      ResetsGrow(events, i, j - 1);
      assert events[..j][..j - 1] == events[..j - 1];
      SaltsStay(events, i, j - 1, place);
      StepKeeps(Run(events[..j - 1]), events[j - 1], place.origin, place.frame);
    }
  }

  /** The salt returned by an event is kept at its place right after it. */
  lemma ReturnedIsKept(events: seq<Event>, i: nat)
    requires i < |events| && events[i].Ask? && events[i].uuid != ""
    ensures KeptAt(events[..i + 1], PlaceOf(events, i)) == Returned(events, i) != ""
    ensures Resets(events[..i + 1]) == Resets(events[..i])
  {
    assert events[..i + 1][..i] == events[..i];
    AskReturnsKept(Run(events[..i]), events[i]);
  }

  /** A kept salt was generated by an event that asked for its place. */
  ghost predicate GeneratedAt(events: seq<Event>, n: nat, k: nat, salt: string, place: Place) {
    k < n <= |events| && events[k].Ask? && events[k].uuid == salt && PlaceOf(events, k) == place
  }

  lemma {:induction false} KeptWasGenerated(events: seq<Event>, n: nat, place: Place) returns (k: nat)
    requires n <= |events| && KeptAt(events[..n], place) != ""
    ensures GeneratedAt(events, n, k, KeptAt(events[..n], place), place)
    decreases n
  {
    assert events[..0] == [];
    assert events[..n][..n - 1] == events[..n - 1];
    var e, p := events[n - 1], Run(events[..n - 1]);
    if !e.Reset? && Kept(p, place.origin, place.frame) == KeptAt(events[..n], place) {
      k := KeptWasGenerated(events, n - 1, place);
    } else {
      assert !e.Reset?;
      StepKeeps(p, e, place.origin, place.frame);
      k := n - 1;
    }
  }

  lemma SamePlaceSameSalt(events: seq<Event>, i: nat, j: nat)
    requires FreshIds(events) && i < j < |events| && events[i].Ask? && events[j].Ask?
    requires PlaceOf(events, i) == PlaceOf(events, j)
    ensures Returned(events, i) == Returned(events, j)
  {
    ReturnedIsKept(events, i);
    ReturnedIsKept(events, j);
    SaltsStay(events, i + 1, j + 1, PlaceOf(events, i));
  }

  lemma SameSaltSamePlace(events: seq<Event>, i: nat, j: nat)
    requires FreshIds(events) && i < j < |events| && events[i].Ask? && events[j].Ask?
    requires Returned(events, i) == Returned(events, j)
    ensures PlaceOf(events, i) == PlaceOf(events, j)
  {
    ReturnedIsKept(events, i);
    ReturnedIsKept(events, j);
    var k := KeptWasGenerated(events, i + 1, PlaceOf(events, i));
    var l := KeptWasGenerated(events, j + 1, PlaceOf(events, j));
    assert events[k].uuid == events[l].uuid;
  }

  /**
   * Two answers of a run are equal if and only if no reset came between them, they were for one
   * origin, and both were its persistent salt or both one frame's own.
   */
  lemma SaltsEqualExactly(events: seq<Event>, i: nat, j: nat)
    requires FreshIds(events) && i < j < |events| && events[i].Ask? && events[j].Ask?
    ensures Returned(events, i) == Returned(events, j) <==> PlaceOf(events, i) == PlaceOf(events, j)
  {
    if Returned(events, i) == Returned(events, j) { SameSaltSamePlace(events, i, j); }
    if PlaceOf(events, i) == PlaceOf(events, j) { SamePlaceSameSalt(events, i, j); }
  }

  /** Different origins never share a salt. */
  lemma OriginsNeverShare(events: seq<Event>, i: nat, j: nat)
    requires FreshIds(events) && i < j < |events| && events[i].Ask? && events[j].Ask?
    requires events[i].origin != events[j].origin
    ensures Returned(events, i) != Returned(events, j)
  {
    SaltsEqualExactly(events, i, j);
  }

  /** Once a frame has its own salt, its place stays the same until a reset. */
  lemma OwnSaltIsLast(events: seq<Event>, i: nat, j: nat)
    requires FreshIds(events) && i < j < |events| && events[i].Ask? && events[j].Ask?
    requires events[i].origin == events[j].origin && events[i].frame == events[j].frame
    requires Resets(events[..i]) == Resets(events[..j])
    requires PlaceOf(events, i).frame.Some?
    ensures PlaceOf(events, j) == PlaceOf(events, i)
  {
    ReturnedIsKept(events, i);
    SaltsStay(events, i + 1, j, PlaceOf(events, i));
  }

  /**
   * Between resets the answers for one origin and frame change at most once, whatever permissions
   * are set in between, and never after the frame has been given its own salt.
   */
  lemma SaltChangesAtMostOnce(events: seq<Event>, i: nat, j: nat, k: nat)
    requires FreshIds(events) && i < j < k < |events| && events[i].Ask? && events[j].Ask? && events[k].Ask?
    requires events[i].origin == events[j].origin == events[k].origin
    requires events[i].frame == events[j].frame == events[k].frame
    requires Resets(events[..i]) == Resets(events[..k])
    ensures Returned(events, i) == Returned(events, j) || Returned(events, j) == Returned(events, k)
    ensures PlaceOf(events, j).frame.Some? ==> Returned(events, j) == Returned(events, k)
  {
    ResetsGrow(events, i, j);
    ResetsGrow(events, j, k);
    SaltsEqualExactly(events, i, j);
    SaltsEqualExactly(events, j, k);
    if PlaceOf(events, j).frame.Some? { OwnSaltIsLast(events, j, k); }
    if PlaceOf(events, i).frame.Some? { OwnSaltIsLast(events, i, j); }
  }

  // ----- the same from the list of events alone -----

  /** The last permission set for the origin since the last reset, false if there is none. */
  function Permitted(events: seq<Event>, origin: string): bool {
    if events == [] then false
    else
      var init, last := events[..|events| - 1], events[|events| - 1];
      if last.Reset? then false
      else if last.SetPermission? && last.origin == origin then last.permission
      else Permitted(init, origin)
  }

  /** Since the last reset, the frame has asked while its origin was not permitted. */
  function AskedAlone(events: seq<Event>, origin: string, frame: nat): bool {
    if events == [] then false
    else
      var init, last := events[..|events| - 1], events[|events| - 1];
      if last.Reset? then false
      else if last.Ask? && last.origin == origin && last.frame == frame && !Permitted(init, origin) then true
      else AskedAlone(init, origin, frame)
  }

  /** The request is of a permitted origin, by a frame that has not asked alone. */
  predicate Shares(events: seq<Event>, i: nat)
    requires i < |events| && events[i].Ask?
  {
    Permitted(events[..i], events[i].origin) && !AskedAlone(events[..i], events[i].origin, events[i].frame)
  }

  predicate NoResetBetween(events: seq<Event>, i: nat, j: nat)
    requires i <= j <= |events|
  {
    forall k | i <= k < j :: !events[k].Reset?
  }

  /** The identifiers generated are not empty. */
  predicate NonEmptyIds(events: seq<Event>) {
    forall i | 0 <= i < |events| && events[i].Ask? :: events[i].uuid != ""
  }

  lemma {:induction false} PermissionFromEvents(events: seq<Event>, origin: string)
    ensures Get(Run(events), origin).persistentPermission == Permitted(events, origin)
    decreases |events|
  {
    if events != [] { PermissionFromEvents(events[..|events| - 1], origin); }
  }

  lemma {:induction false} OwnSaltFromEvents(events: seq<Event>, origin: string, frame: nat)
    requires NonEmptyIds(events)
    ensures FrameSalt(Get(Run(events), origin), frame) != "" <==> AskedAlone(events, origin, frame)
    decreases |events|
  {
    if events != [] {
      var init := events[..|events| - 1];
      OwnSaltFromEvents(init, origin, frame);
      PermissionFromEvents(init, origin);
    }
  }

  lemma PlaceFromEvents(events: seq<Event>, i: nat)
    requires NonEmptyIds(events) && i < |events| && events[i].Ask?
    ensures PlaceOf(events, i)
            == Place(Resets(events[..i]), events[i].origin, if Shares(events, i) then None else Some(events[i].frame))
  {
    PermissionFromEvents(events[..i], events[i].origin);
    OwnSaltFromEvents(events[..i], events[i].origin, events[i].frame);
  }

  lemma {:induction false} ResetsBetween(events: seq<Event>, i: nat, j: nat)
    requires i <= j <= |events|
    ensures Resets(events[..i]) == Resets(events[..j]) <==> NoResetBetween(events, i, j)
    decreases j
  {
    if i < j {
      assert events[..j][..j - 1] == events[..j - 1];
      ResetsBetween(events, i, j - 1);
      ResetsGrow(events, i, j - 1);
    }
  }

  /**
   * Two answers are equal if and only if no reset came between, the origin is one, and either both
   * requests share the origin's salt or neither does and the frame is one.
   */
  lemma AnswersEqualExactly(events: seq<Event>, i: nat, j: nat)
    requires FreshIds(events) && i < j < |events| && events[i].Ask? && events[j].Ask?
    ensures Returned(events, i) == Returned(events, j)
            <==> && NoResetBetween(events, i, j) && events[i].origin == events[j].origin
                 && Shares(events, i) == Shares(events, j) && (Shares(events, i) || events[i].frame == events[j].frame)
  {
    SaltsEqualExactly(events, i, j);
    PlaceFromEvents(events, i);
    PlaceFromEvents(events, j);
    ResetsBetween(events, i, j);
  }

  /** Frames of a permitted origin that have not asked alone get one salt. */
  lemma PermittedFramesShare(events: seq<Event>, i: nat, j: nat)
    requires FreshIds(events) && i < j < |events| && events[i].Ask? && events[j].Ask? && NoResetBetween(events, i, j)
    requires events[i].origin == events[j].origin
    requires Permitted(events[..i], events[i].origin) && Permitted(events[..j], events[i].origin)
    requires !AskedAlone(events[..i], events[i].origin, events[i].frame)
    requires !AskedAlone(events[..j], events[j].origin, events[j].frame)
    ensures Returned(events, i) == Returned(events, j)
  {
    AnswersEqualExactly(events, i, j);
  }

  /** Different frames that ask while the origin is not permitted get different salts. */
  lemma UnpermittedFramesDiffer(events: seq<Event>, i: nat, j: nat)
    requires FreshIds(events) && i < j < |events| && events[i].Ask? && events[j].Ask?
    requires events[i].frame != events[j].frame
    requires !Permitted(events[..i], events[i].origin) && !Permitted(events[..j], events[j].origin)
    ensures Returned(events, i) != Returned(events, j)
  {
    AnswersEqualExactly(events, i, j);
  }

  // ----- the controller -----

  class TestController {
    var permissions: Permissions

    constructor ()
      ensures permissions == Run([])
    {
      permissions := map[];
    }

    method AskSalt(origin: string, frame: nat, uuid: string, ghost events: seq<Event>) returns (salt: string)
      requires permissions == Run(events)
      modifies this
      ensures permissions == Run(events + [Ask(origin, frame, uuid)])
      ensures salt == Returned(events + [Ask(origin, frame, uuid)], |events|)
    {
      assert (events + [Ask(origin, frame, uuid)])[..|events|] == events;
      if origin !in permissions {
        permissions := permissions[origin := Settings(map[], "", false)];
      }
      var settings := permissions[origin];
      var frameSalt := if frame in settings.ephemeralSalts then settings.ephemeralSalts[frame] else "";
      if settings.persistentPermission {
        if |frameSalt| > 0 { return frameSalt; }
        if |settings.persistentSalt| == 0 {
          settings := settings.(persistentSalt := uuid);
          permissions := permissions[origin := settings];
        }
        return settings.persistentSalt;
      }
      if |frameSalt| == 0 {
        frameSalt := uuid;
        permissions := permissions[origin := settings.(ephemeralSalts := settings.ephemeralSalts[frame := frameSalt])];
      }
      return frameSalt;
    }

    method SetUserMediaPermission(origin: string, permission: bool, ghost events: seq<Event>)
      requires permissions == Run(events)
      modifies this
      ensures permissions == Run(events + [SetPermission(origin, permission)])
    {
      assert (events + [SetPermission(origin, permission)])[..|events|] == events;
      if origin !in permissions {
        permissions := permissions[origin := Settings(map[], "", false)];
      }
      permissions := permissions[origin := permissions[origin].(persistentPermission := permission)];
    }

    method ResetToConsistentState(ghost events: seq<Event>)
      requires permissions == Run(events)
      modifies this
      ensures permissions == Run(events + [Reset])
    {
      permissions := map[];
    }
  }
}
