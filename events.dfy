/**
 * Events on the server: the role list an event carries (names cleaned of
 * surrounding whitespace, blank ones dropped, each with a colour), the event
 * store with its create, update and per-organisation listing, and the
 * colour palette. `random.choice` is the parameter `draw`: the palette index
 * the k-th call picks. Identifiers and timestamps are parameters too.
 */
module Events {
  import opened Wrappers
  import opened Text
  import opened Accounts
  import Roster

  datatype EventRole = EventRole(name: string, color: string)

  datatype Event = Event(
    id: string, name: string, organizationId: string, createdAt: string,
    description: Option<string>, roles: seq<EventRole>)

  /** `EventUpdate`: each field is overwritten only when given. */
  datatype EventUpdate = EventUpdate(name: Option<string>, description: Option<string>, roles: Option<seq<string>>)

  /** The refusals of the event endpoints: 404 and 403. */
  datatype HttpError = NotFound | Forbidden

  /** The colours of `generate_random_color`. */
  const Palette: seq<string> := [
    "#FF6B6B", "#4ECDC4", "#45B7D1", "#FFA07A", "#98D8C8",
    "#F7DC6F", "#BB8FCE", "#85C1E2", "#F8B739", "#52BE80",
    "#E74C3C", "#3498DB", "#9B59B6", "#1ABC9C", "#F39C12",
    "#E67E22", "#34495E", "#16A085", "#27AE60", "#2980B9"]

  /** The colour of the k-th `generate_random_color()` call. */
  function RandomColor(draw: nat -> nat, k: nat): string {
    Palette[draw(k) % |Palette|]
  }

  /** Every draw picks one of the palette's colours. */
  lemma RandomColorInPalette(draw: nat -> nat, k: nat)
    ensures RandomColor(draw, k) in Palette
  {
  }

  // ------------------------------------------------------------ role names

  /** `role_name and str(role_name).strip()`: a name that is not blank. */
  predicate Kept(roleName: string) {
    StripPy(roleName) != ""
  }

  /** The cleaned names: each kept name stripped, in the order given. */
  function CleanNames(names: seq<string>): (r: seq<string>)
    ensures |r| <= |names|
  {
    if names == [] then []
    else
      var n := |names| - 1;
      CleanNames(names[..n]) + if Kept(names[n]) then [StripPy(names[n])] else []
  }

  /** A cleaned name is not blank and stripping it again changes nothing. */
  lemma {:induction false} CleanNamesClean(names: seq<string>)
    ensures forall j :: 0 <= j < |CleanNames(names)| ==> Clean(CleanNames(names)[j])
  {
    if names != [] {
      var n := |names| - 1;
      CleanNamesClean(names[..n]);
      var prev := CleanNames(names[..n]);
      var all := CleanNames(names);
      assert all[..|prev|] == prev;
      if Kept(names[n]) {
        TrimIdempotent(names[n], IsPySpace);
        assert all[|prev|] == StripPy(names[n]);
      }
    }
  }

  /** Cleaning a list of names that came out of cleaning changes nothing. */
  lemma CleanNamesIdempotent(names: seq<string>)
    ensures CleanNames(CleanNames(names)) == CleanNames(names)
  {
    CleanNamesClean(names);
    CleanNamesOfClean(CleanNames(names));
  }

  /** A name that cleaning keeps as it is. */
  predicate Clean(name: string) {
    Kept(name) && StripPy(name) == name
  }

  /** Whitespace-only and empty names are dropped; any other name is kept, stripped. */
  lemma CleanNamesOne(name: string)
    ensures CleanNames([name]) == (if StripPy(name) == "" then [] else [StripPy(name)])
  {
    assert [name][..0] == [];
  }

  // ------------------------------------------------------------ create

  /**
   * `create_event`'s roles: each kept name stripped, paired with the colour
   * of the next `generate_random_color()` call.
   */
  function CreateRoles(names: seq<string>, draw: nat -> nat): (r: seq<EventRole>)
    ensures |r| == |CleanNames(names)|
  {
    if names == [] then []
    else
      var n := |names| - 1;
      var prev := CreateRoles(names[..n], draw);
      prev + if Kept(names[n]) then [EventRole(StripPy(names[n]), RandomColor(draw, |prev|))] else []
  }

  /** Role j is named `names[j]` and has the colour of the j-th draw. */
  ghost predicate CreatedFrom(r: seq<EventRole>, names: seq<string>, draw: nat -> nat) {
    |r| == |names| && forall j :: 0 <= j < |r| ==> r[j].name == names[j] && r[j].color == RandomColor(draw, j)
  }

  /**
   * The created roles carry exactly the cleaned names, in order, and the
   * k-th of them the colour of the k-th draw.
   */
  lemma {:induction false} CreateRolesSpec(names: seq<string>, draw: nat -> nat)
    ensures CreatedFrom(CreateRoles(names, draw), CleanNames(names), draw)
  {
    if names != [] {
      var n := |names| - 1;
      CreateRolesSpec(names[..n], draw);
      var prev, cprev := CreateRoles(names[..n], draw), CleanNames(names[..n]);
      var r, c := CreateRoles(names, draw), CleanNames(names);
      assert r == prev + if Kept(names[n]) then [EventRole(StripPy(names[n]), RandomColor(draw, |prev|))] else [];
      assert c == cprev + if Kept(names[n]) then [StripPy(names[n])] else [];
      forall j | 0 <= j < |r|
        ensures r[j].name == c[j] && r[j].color == RandomColor(draw, j)
      {
        assert |prev| == |cprev|;
        if j < |prev| {
          assert r[j] == prev[j] && c[j] == cprev[j];
        } else {
          assert Kept(names[n]) && j == |prev|;
        }
      }
    }
  }

  /** The loop of `create_event`, proved to build `CreateRoles`. */
  method NormaliseRoles(roles: Option<seq<string>>, draw: nat -> nat) returns (out: seq<EventRole>)
    ensures roles.None? ==> out == []
    ensures roles.Some? ==> out == CreateRoles(roles.value, draw)
  {
    out := [];
    if roles.Some? && |roles.value| > 0 {
      var names := roles.value;
      for i := 0 to |names|
        invariant out == CreateRoles(names[..i], draw)
      {
        assert names[..i + 1][..i] == names[..i];
        if names[i] != "" && StripPy(names[i]) != "" {
          out := out + [EventRole(StripPy(names[i]), RandomColor(draw, |out|))];
        }
      }
      assert names[..|names|] == names;
    }
  }

  // ------------------------------------------------------------ update

  /** `{r["name"]: r["color"] for r in roles}`: a later role of the same name overrides an earlier one. */
  function ExistingColors(roles: seq<EventRole>): map<string, string> {
    if roles == [] then map[]
    else
      var n := |roles| - 1;
      ExistingColors(roles[..n])[roles[n].name := roles[n].color]
  }

  /** A name maps to the colour of the last role carrying it, and only names of roles are mapped. */
  lemma ExistingColorsLastWins(roles: seq<EventRole>, name: string)
    ensures name in ExistingColors(roles) <==> exists i :: 0 <= i < |roles| && roles[i].name == name
    ensures forall i :: (0 <= i < |roles| && roles[i].name == name &&
                         (forall k :: i < k < |roles| ==> roles[k].name != name)) ==>
      name in ExistingColors(roles) && ExistingColors(roles)[name] == roles[i].color
  {
    ExistingColorsDomain(roles, name);
    forall i | 0 <= i < |roles| && roles[i].name == name && (forall k :: i < k < |roles| ==> roles[k].name != name)
      ensures name in ExistingColors(roles) && ExistingColors(roles)[name] == roles[i].color
    {
      ExistingColorsLast(roles, i);
    }
  }

  /** The names on record are the names of the roles. */
  lemma {:induction false} ExistingColorsDomain(roles: seq<EventRole>, name: string)
    ensures name in ExistingColors(roles) <==> exists i :: 0 <= i < |roles| && roles[i].name == name
  {
    if roles != [] {
      var n := |roles| - 1;
      var prefix := roles[..n];
      ExistingColorsDomain(prefix, name);
      if name != roles[n].name {
        if exists i :: 0 <= i < |roles| && roles[i].name == name {
          var i :| 0 <= i < |roles| && roles[i].name == name;
          assert prefix[i].name == name;
        }
        if exists i :: 0 <= i < |prefix| && prefix[i].name == name {
          var i :| 0 <= i < |prefix| && prefix[i].name == name;
          assert roles[i].name == name;
        }
      }
    }
  }

  /** A role that no later role renames has its colour on record. */
  lemma {:induction false} ExistingColorsLast(roles: seq<EventRole>, i: int)
    requires 0 <= i < |roles|
    requires forall k :: i < k < |roles| ==> roles[k].name != roles[i].name
    ensures roles[i].name in ExistingColors(roles) && ExistingColors(roles)[roles[i].name] == roles[i].color
  {
    var n := |roles| - 1;
    if i < n {
      var prefix := roles[..n];
      assert prefix[i] == roles[i];
      ExistingColorsLast(prefix, i);
      assert roles[n].name != roles[i].name;
    }
  }

  /**
   * `update_event`'s roles: each kept name stripped, with the colour it
   * already had, or else the colour of that step's draw. The draw happens
   * for every kept name, because the default argument of `dict.get` is
   * evaluated either way.
   */
  function UpdateRoles(existing: map<string, string>, names: seq<string>, draw: nat -> nat): (r: seq<EventRole>)
    ensures |r| == |CleanNames(names)|
  {
    if names == [] then []
    else
      var n := |names| - 1;
      var prev := UpdateRoles(existing, names[..n], draw);
      var clean := StripPy(names[n]);
      prev + if Kept(names[n]) then
               [EventRole(clean, if clean in existing then existing[clean] else RandomColor(draw, |prev|))]
             else []
  }

  /**
   * Role j is named `names[j]` and keeps the colour on record for that name,
   * or else has the colour of the j-th draw.
   */
  ghost predicate UpdatedFrom(r: seq<EventRole>, existing: map<string, string>, names: seq<string>, draw: nat -> nat) {
    |r| == |names| &&
    forall j :: 0 <= j < |r| ==>
      r[j].name == names[j] &&
      (names[j] in existing ==> r[j].color == existing[names[j]]) &&
      (names[j] !in existing ==> r[j].color == RandomColor(draw, j))
  }

  /**
   * The updated roles carry exactly the cleaned names, in order; a name the
   * event already had keeps its colour, a new one gets that step's draw.
   */
  lemma {:induction false} UpdateRolesSpec(existing: map<string, string>, names: seq<string>, draw: nat -> nat)
    ensures UpdatedFrom(UpdateRoles(existing, names, draw), existing, CleanNames(names), draw)
  {
    if names != [] {
      var n := |names| - 1;
      UpdateRolesSpec(existing, names[..n], draw);
      var prev, cprev := UpdateRoles(existing, names[..n], draw), CleanNames(names[..n]);
      var r, c := UpdateRoles(existing, names, draw), CleanNames(names);
      var clean := StripPy(names[n]);
      assert r == prev + if Kept(names[n]) then
        [EventRole(clean, if clean in existing then existing[clean] else RandomColor(draw, |prev|))] else [];
      assert c == cprev + if Kept(names[n]) then [clean] else [];
      forall j | 0 <= j < |r|
        ensures r[j].name == c[j]
        ensures c[j] in existing ==> r[j].color == existing[c[j]]
        ensures c[j] !in existing ==> r[j].color == RandomColor(draw, j)
      {
        assert |prev| == |cprev|;
        if j < |prev| {
          assert r[j] == prev[j] && c[j] == cprev[j];
        } else {
          assert Kept(names[n]) && j == |prev|;
        }
      }
    }
  }

  /** With no colours on record, updating the roles is creating them. */
  lemma {:induction false} UpdateWithoutHistoryIsCreate(names: seq<string>, draw: nat -> nat)
    ensures UpdateRoles(map[], names, draw) == CreateRoles(names, draw)
  {
    if names != [] {
      UpdateWithoutHistoryIsCreate(names[..|names| - 1], draw);
    }
  }

  /** The loop of `update_event`, proved to build `UpdateRoles`. */
  method ReplaceRoles(old_roles: seq<EventRole>, names: seq<string>, draw: nat -> nat) returns (out: seq<EventRole>)
    ensures out == UpdateRoles(ExistingColors(old_roles), names, draw)
  {
    var existingRoles := ExistingColors(old_roles);
    out := [];
    for i := 0 to |names|
      invariant out == UpdateRoles(existingRoles, names[..i], draw)
    {
      assert names[..i + 1][..i] == names[..i];
      if names[i] != "" && StripPy(names[i]) != "" {
        var roleNameClean := StripPy(names[i]);
        var drawn := RandomColor(draw, |out|);
        var color := if roleNameClean in existingRoles then existingRoles[roleNameClean] else drawn;
        out := out + [EventRole(roleNameClean, color)];
      }
    }
    assert names[..|names|] == names;
  }

  /**
   * The update applied to one event: the name and description when given,
   * the roles when given (an empty list clears them).
   */
  function ApplyUpdate(e: Event, u: EventUpdate, draw: nat -> nat): (r: Event)
    ensures r.id == e.id && r.organizationId == e.organizationId && r.createdAt == e.createdAt
    ensures r.name == (if u.name.Some? then u.name.value else e.name)
    ensures r.description == (if u.description.Some? then u.description else e.description)
    ensures u.roles.None? ==> r.roles == e.roles
  {
    var e1 := if u.name.Some? then e.(name := u.name.value) else e;
    var e2 := if u.description.Some? then e1.(description := u.description) else e1;
    if u.roles.Some? then e2.(roles := UpdateRoles(ExistingColors(e.roles), u.roles.value, draw)) else e2
  }

  /** An update that gives nothing leaves the event as it was. */
  lemma EmptyUpdateKeepsEvent(e: Event, draw: nat -> nat)
    ensures ApplyUpdate(e, EventUpdate(None, None, None), draw) == e
  {
  }

  /**
   * Re-sending an event's own role names keeps every colour, provided the
   * names are already clean and distinct.
   */
  lemma ResendKeepsColors(e: Event, draw: nat -> nat)
    requires forall i :: 0 <= i < |e.roles| ==> Clean(e.roles[i].name)
    requires forall i, k :: 0 <= i < k < |e.roles| ==> e.roles[i].name != e.roles[k].name
    ensures var names := seq(|e.roles|, i requires 0 <= i < |e.roles| => e.roles[i].name);
      ApplyUpdate(e, EventUpdate(None, None, Some(names)), draw).roles == e.roles
  {
    var names := seq(|e.roles|, i requires 0 <= i < |e.roles| => e.roles[i].name);
    assert forall i :: 0 <= i < |names| ==> names[i] == e.roles[i].name;
    CleanNamesOfClean(names);
    var existing := ExistingColors(e.roles);
    UpdateRolesSpec(existing, names, draw);
    UpdatedOwnRoles(e.roles, names, UpdateRoles(existing, names, draw), draw);
  }

  /** Roles updated from distinct roles' own names, under those roles' colours, are those roles. */
  lemma UpdatedOwnRoles(roles: seq<EventRole>, names: seq<string>, r: seq<EventRole>, draw: nat -> nat)
    requires |names| == |roles| && forall i :: 0 <= i < |roles| ==> names[i] == roles[i].name
    requires forall i, k :: 0 <= i < k < |roles| ==> roles[i].name != roles[k].name
    requires UpdatedFrom(r, ExistingColors(roles), names, draw)
    ensures r == roles
  {
    forall j | 0 <= j < |r|
      ensures r[j] == roles[j]
    {
      DistinctNameKeepsColor(roles, j);
    }
  }

  /** When no two roles share a name, each role's name maps to that role's colour. */
  lemma DistinctNameKeepsColor(roles: seq<EventRole>, j: int)
    requires 0 <= j < |roles|
    requires forall i, k :: 0 <= i < k < |roles| ==> roles[i].name != roles[k].name
    ensures roles[j].name in ExistingColors(roles) && ExistingColors(roles)[roles[j].name] == roles[j].color
  {
    ExistingColorsLastWins(roles, roles[j].name);
  }

  /** Names that are all kept and already stripped come through cleaning unchanged. */
  lemma {:induction false} CleanNamesOfClean(names: seq<string>)
    requires forall i :: 0 <= i < |names| ==> Clean(names[i])
    ensures CleanNames(names) == names
  {
    if names != [] {
      var n := |names| - 1;
      var prefix, last := names[..n], names[n];
      assert prefix + [last] == names;
      CleanNamesOfClean(prefix);
      CleanNamesSnocClean(prefix, last);
    }
  }

  /** Appending a clean name appends it to the cleaned names. */
  lemma CleanNamesSnocClean(prefix: seq<string>, last: string)
    requires Clean(last)
    ensures CleanNames(prefix + [last]) == CleanNames(prefix) + [last]
  {
    assert (prefix + [last])[..|prefix|] == prefix;
  }

  // ------------------------------------------------------------ the store

  /** `[e for e in events_db if e.get("organization_id") == organization_id]`. */
  function OrganizationEvents(events: seq<Event>, org: string): (r: seq<Event>)
    ensures |r| <= |events|
  {
    if events == [] then []
    else
      var n := |events| - 1;
      OrganizationEvents(events[..n], org) + if events[n].organizationId == org then [events[n]] else []
  }

  /** Whether each stored event belongs to the organisation. */
  function Owned(events: seq<Event>, org: string): (r: seq<bool>)
    ensures |r| == |events|
    ensures forall i :: 0 <= i < |events| ==> r[i] == (events[i].organizationId == org)
  {
    seq(|events|, i requires 0 <= i < |events| => events[i].organizationId == org)
  }

  /** `got` is `xs` read at the positions `ks`, in that order. */
  ghost predicate PickedAt(got: seq<Event>, xs: seq<Event>, ks: seq<int>) {
    |got| == |ks| && forall j :: 0 <= j < |ks| ==> 0 <= ks[j] < |xs| && got[j] == xs[ks[j]]
  }

  /**
   * The listing is the store read at the organisation's positions, in
   * ascending order: each owned event once per time it is stored, in stored
   * order, and nothing else.
   */
  lemma {:induction false} OrganizationEventsInOrder(events: seq<Event>, org: string)
    ensures PickedAt(OrganizationEvents(events, org), events, Roster.KeptIndices(Owned(events, org)))
  {
    if events != [] {
      var n := |events| - 1;
      var prefix := events[..n];
      OrganizationEventsInOrder(prefix, org);
      var flags := Owned(events, org);
      assert flags[..n] == Owned(prefix, org);
      var ks0, got0 := Roster.KeptIndices(flags[..n]), OrganizationEvents(prefix, org);
      var ks, got := Roster.KeptIndices(flags), OrganizationEvents(events, org);
      assert ks == ks0 + if flags[n] then [n] else [];
      assert got == got0 + if events[n].organizationId == org then [events[n]] else [];
      forall j | 0 <= j < |ks|
        ensures 0 <= ks[j] < |events| && got[j] == events[ks[j]]
      {
        if j < |ks0| {
          assert ks[j] == ks0[j] && got[j] == got0[j] && prefix[ks0[j]] == events[ks0[j]];
        }
      }
    }
  }

  /** The listing holds exactly the stored events of the organisation. */
  lemma {:induction false} OrganizationEventsMembers(events: seq<Event>, org: string)
    ensures forall e :: e in OrganizationEvents(events, org) <==> e in events && e.organizationId == org
  {
    if events != [] {
      var n := |events| - 1;
      OrganizationEventsMembers(events[..n], org);
      assert events == events[..n] + [events[n]];
    }
  }

  /** An organisation that owns every stored event sees them all, in stored order. */
  lemma {:induction false} OrganizationEventsAll(events: seq<Event>, org: string)
    requires forall i :: 0 <= i < |events| ==> events[i].organizationId == org
    ensures OrganizationEvents(events, org) == events
  {
    if events != [] {
      var n := |events| - 1;
      OrganizationEventsAll(events[..n], org);
      assert events == events[..n] + [events[n]];
    }
  }

  /** The position of the first event with this id (`next(...)`), if any. */
  function FindEvent(events: seq<Event>, id: string): (r: Option<nat>)
    ensures r.None? <==> forall i :: 0 <= i < |events| ==> events[i].id != id
    ensures r.Some? ==>
      r.value < |events| && events[r.value].id == id && forall i :: 0 <= i < r.value ==> events[i].id != id
  {
    if events == [] then None
    else if events[0].id == id then Some(0)
    else match FindEvent(events[1..], id)
      case None => None
      case Some(k) => Some(k + 1)
  }

  /** `events_db`, the list of stored events. */
  class EventStore {
    var events: seq<Event>

    constructor(events: seq<Event>)
      ensures this.events == events
    {
      this.events := events;
    }

    /** `get_events` for a caller. */
    function GetEvents(caller: CurrentUser): seq<Event>
      reads this
    {
      OrganizationEvents(events, OrganizationOf(caller))
    }

    /**
     * `create_event`: the new event, filed under the caller's organisation
     * with its roles normalised, is appended to the store.
     */
    method CreateEvent(id: string, name: string, description: Option<string>, roles: Option<seq<string>>,
                       caller: CurrentUser, createdAt: string, draw: nat -> nat) returns (e: Event)
      modifies this
      ensures e.id == id && e.name == name && e.organizationId == OrganizationOf(caller)
      ensures e.createdAt == createdAt && e.description == description
      ensures e.roles == if roles.Some? then CreateRoles(roles.value, draw) else []
      ensures events == old(events) + [e]
    {
      var normalised := NormaliseRoles(roles, draw);
      e := Event(id, name, OrganizationOf(caller), createdAt, description, normalised);
      events := events + [e];
    }

    /**
     * `update_event`: 404 when no event has the id, 403 when the first one
     * that does belongs to another organisation; otherwise that event is
     * updated in place and returned, and no other event changes.
     */
    method UpdateEvent(eventId: string, u: EventUpdate, caller: CurrentUser, draw: nat -> nat)
      returns (r: Result<Event, HttpError>)
      modifies this
      ensures var k := FindEvent(old(events), eventId);
        (k.None? ==> r == Failure(NotFound) && events == old(events)) &&
        (k.Some? && old(events)[k.value].organizationId != OrganizationOf(caller) ==>
          r == Failure(Forbidden) && events == old(events)) &&
        (k.Some? && old(events)[k.value].organizationId == OrganizationOf(caller) ==>
          r == Success(ApplyUpdate(old(events)[k.value], u, draw)) &&
          events == old(events)[k.value := r.value])
    {
      var k := FindEvent(events, eventId);
      if k.None? {
        return Failure(NotFound);
      }
      var event := events[k.value];
      if event.organizationId != OrganizationOf(caller) {
        return Failure(Forbidden);
      }
      if u.name.Some? {
        event := event.(name := u.name.value);
      }
      if u.description.Some? {
        event := event.(description := u.description);
      }
      if u.roles.Some? {
        var newRoles := ReplaceRoles(events[k.value].roles, u.roles.value, draw);
        event := event.(roles := newRoles);
      }
      events := events[k.value := event];
      r := Success(event);
    }
  }

  /** A successful update keeps the event's id and organisation, so the updated event is in the caller's listing. */
  lemma UpdateStaysListed(events: seq<Event>, k: nat, u: EventUpdate, draw: nat -> nat, org: string)
    requires k < |events| && events[k].organizationId == org
    ensures var after := events[k := ApplyUpdate(events[k], u, draw)];
      ApplyUpdate(events[k], u, draw) in OrganizationEvents(after, org)
  {
    var after := events[k := ApplyUpdate(events[k], u, draw)];
    OrganizationEventsMembers(after, org);
    assert after[k] in after;
  }
}
