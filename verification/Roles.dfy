/**
  Roles of cluster admins. A role is stored under `owner:name`, because stored names are unique over
  all owners; the primary role "Administrator" is created with the admin and is protected.
 */
module Roles {
  import opened Prelude

  const PRIMARY_ROLE_NAME := "Administrator"
  const ID_LENGTH := 36

  /** Owner identifiers are UUIDs in text form: of one length and without a colon. */
  predicate IsId(o: string) {
    |o| == ID_LENGTH && ':' !in o
  }

  // ---------------------------------------------------------------- names

  /** `_set_name_from_owner_id` */
  function StoredName(owner: string, name: string): string {
    if owner <= name then name else owner + ":" + name
  }

  /** `display_name`: `removeprefix` of the owner and the colon. */
  function DisplayName(owner: string, stored: string): string {
    if owner + ":" <= stored then stored[|owner| + 1..] else stored
  }

  /** `RoleNameField.to_representation`: what follows the first colon, or nothing. */
  function FieldName(stored: string): string {
    if stored == "" then "" else if stored[0] == ':' then stored[1..] else FieldName(stored[1..])
  }

  lemma {:induction false} FieldNameAfterColon(head: string, tail: string)
    requires ':' !in head
    ensures FieldName(head + ":" + tail) == tail
  {
    if head == "" {
      assert head + ":" + tail == ":" + tail;
    } else {
      FieldNameAfterColon(head[1..], tail);
      assert (head + ":" + tail)[1..] == head[1..] + ":" + tail;
    }
  }

  lemma {:induction false} FieldNameIsShorter(stored: string)
    requires stored != ""
    ensures |FieldName(stored)| < |stored|
  {
    if stored[0] != ':' && |stored| > 1 {
      FieldNameIsShorter(stored[1..]);
    }
  }

  /** Saving twice is saving once. */
  lemma SavingIsIdempotent(owner: string, name: string)
    ensures StoredName(owner, StoredName(owner, name)) == StoredName(owner, name)
    ensures owner <= StoredName(owner, name)
  {
    assert owner <= owner + ":" + name;
  }

  /** The displayed name is the given one exactly when that does not start with the owner and a colon;
      the name field recovers it exactly when it does not start with the owner at all. */
  lemma NamesInvertIff(owner: string, name: string)
    requires ':' !in owner && owner != ""
    ensures DisplayName(owner, StoredName(owner, name)) == name <==> !(owner + ":" <= name)
    ensures FieldName(StoredName(owner, name)) == name <==> !(owner <= name)
  {
    if owner <= name {
      FieldNameIsShorter(name);
    } else {
      FieldNameAfterColon(owner, name);
      var stored := owner + ":" + name;
      assert stored[..|owner| + 1] == owner + ":";
      assert stored[|owner| + 1..] == name;
      assert owner + ":" <= name ==> owner <= name by {
        assert owner <= owner + ":";
      }
    }
  }

  /** Equal stored names come from equal owners and equal names. */
  lemma StoredNamesAreInjective(o1: string, n1: string, o2: string, n2: string)
    requires IsId(o1) && IsId(o2) && !(o1 <= n1) && !(o2 <= n2)
    requires StoredName(o1, n1) == StoredName(o2, n2)
    ensures o1 == o2 && n1 == n2
  {
    var stored := StoredName(o1, n1);
    assert stored[..ID_LENGTH] == o1 && stored[..ID_LENGTH] == o2;
    assert stored[ID_LENGTH + 1..] == n1 && stored[ID_LENGTH + 1..] == n2;
  }

  // ---------------------------------------------------------------- the role table

  datatype Row = Row(owner: string, name: string, description: string, permissions: set<string>)

  datatype State = State(roles: map<nat, Row>, nextId: nat)

  datatype DefaultRole = DefaultRole(name: string, description: string, permissions: set<string>)

  datatype Request =
    | CreateAdmin(owner: string, defaults: seq<DefaultRole>)
    | CreateRole(owner: string, name: string, description: string, permissions: set<string>)
    | UpdateRole(owner: string, id: nat, newName: Option<string>, newDescription: Option<string>,
                 newPermissions: Option<set<string>>)
    | DestroyRole(owner: string, id: nat)

  datatype Response = Saved | Deleted | ReadOnly | Duplicate | NotFound

  predicate NameTaken(s: State, id: nat, name: string) {
    exists j :: j in s.roles && j != id && s.roles[j].name == name
  }

  /** Stores a row unless the unique name would repeat, in which case the transaction is rolled back. */
  function Store(s: State, id: nat, row: Row): (Response, State) {
    if NameTaken(s, id, row.name) then (Duplicate, s)
    else (Saved, State(s.roles[id := row], if id == s.nextId then id + 1 else s.nextId))
  }

  function Create(s: State, q: Request): (Response, State)
    requires q.CreateRole?
  {
    if q.name == PRIMARY_ROLE_NAME then (ReadOnly, s)
    else Store(s, s.nextId, Row(q.owner, StoredName(q.owner, q.name), q.description, q.permissions))
  }

  function Update(s: State, q: Request): (Response, State)
    requires q.UpdateRole?
  {
    if q.id !in s.roles || s.roles[q.id].owner != q.owner then (NotFound, s)
    else
      var row := s.roles[q.id];
      if FieldName(row.name) == PRIMARY_ROLE_NAME then (ReadOnly, s)
      else
        var permissions := if q.newPermissions.Some? && q.newPermissions.value != {}
                           then q.newPermissions.value else row.permissions;
        var name := if q.newName.Some? then q.newName.value else row.name;
        var description := if q.newDescription.Some? then q.newDescription.value else row.description;
        Store(s, q.id, Row(row.owner, StoredName(row.owner, name), description, permissions))
  }

  function Destroy(s: State, q: Request): (Response, State)
    requires q.DestroyRole?
  {
    if q.id !in s.roles || s.roles[q.id].owner != q.owner then (NotFound, s)
    else if DisplayName(q.owner, s.roles[q.id].name) == PRIMARY_ROLE_NAME then (ReadOnly, s)
    else (Deleted, s.(roles := s.roles - {q.id}))
  }

  function DefaultRow(owner: string, d: DefaultRole): Row {
    Row(owner, StoredName(owner, owner + ":" + d.name), d.description, d.permissions)
  }

  function AddDefaults(s: State, owner: string, defaults: seq<DefaultRole>): State {
    if |defaults| == 0 then s
    else
      var n := |defaults| - 1;
      Store(AddDefaults(s, owner, defaults[..n]), AddDefaults(s, owner, defaults[..n]).nextId,
            DefaultRow(owner, defaults[n])).1
  }

  lemma OneMoreDefault(s: State, owner: string, defaults: seq<DefaultRole>, i: nat)
    requires i < |defaults|
    ensures var before := AddDefaults(s, owner, defaults[..i]);
            AddDefaults(s, owner, defaults[..i + 1]) == Store(before, before.nextId, DefaultRow(owner, defaults[i])).1
  {
    assert defaults[..i + 1][..i] == defaults[..i];
  }

  ghost predicate OwnsNothing(s: State, owner: string) {
    forall i :: i in s.roles ==> s.roles[i].owner != owner
  }

  /** The default roles are a dictionary with an entry for the primary role. */
  ghost predicate ValidDefaults(defaults: seq<DefaultRole>) {
    && (forall i, j :: 0 <= i < j < |defaults| ==> defaults[i].name != defaults[j].name)
    && exists i :: 0 <= i < |defaults| && defaults[i].name == PRIMARY_ROLE_NAME
  }

  /** A new admin has a new identifier. */
  ghost predicate Serves(s: State, q: Request, a: Response, s': State) {
    match q
    case CreateAdmin(owner, defaults) =>
      && ValidDefaults(defaults) && IsId(owner) && OwnsNothing(s, owner)
      && a == Saved && s' == AddDefaults(s, owner, defaults)
    case CreateRole(owner, _, _, _) => IsId(owner) && (a, s') == Create(s, q)
    case UpdateRole(_, _, _, _, _) => (a, s') == Update(s, q)
    case DestroyRole(_, _) => (a, s') == Destroy(s, q)
  }

  // ---------------------------------------------------------------- objects

  class Role {
    const owner: string
    var name: string
    var description: string
    var permissions: set<string>

    constructor (row: Row)
      ensures AsRow() == row
    {
      owner, name, description, permissions := row.owner, row.name, row.description, row.permissions;
    }

    function AsRow(): Row
      reads this
    {
      Row(owner, name, description, permissions)
    }

    method SetNameFromOwnerId()
      modifies this`name
      ensures name == StoredName(owner, old(name))
    {
      if !(owner <= name) {
        name := owner + ":" + name;
      }
    }
  }

  class RoleService {
    var roles: map<nat, Row>
    var nextId: nat

    ghost function Db(): State
      reads this
    {
      State(roles, nextId)
    }

    constructor ()
      ensures Db() == State(map[], 0)
    {
      roles, nextId := map[], 0;
    }

    /** `Role.save` under the unique constraint on names. */
    method Save(role: Role, id: nat) returns (a: Response)
      modifies this, role`name
      ensures role.name == StoredName(role.owner, old(role.name))
      ensures (a, Db()) == Store(old(Db()), id, role.AsRow())
    {
      role.SetNameFromOwnerId();
      if j :| j in roles && j != id && roles[j].name == role.name {
        assert NameTaken(Db(), id, role.name);
        return Duplicate;
      }
      roles := roles[id := role.AsRow()];
      if id == nextId {
        nextId := nextId + 1;
      }
      a := Saved;
    }

    method CreateView(q: Request) returns (a: Response)
      requires q.CreateRole? && IsId(q.owner)
      modifies this
      ensures Serves(old(Db()), q, a, Db())
    {
      if q.name == PRIMARY_ROLE_NAME {
        return ReadOnly;
      }
      var role := new Role(Row(q.owner, q.name, q.description, q.permissions));
      a := Save(role, nextId);
    }

    method UpdateView(q: Request) returns (a: Response)
      requires q.UpdateRole?
      modifies this
      ensures Serves(old(Db()), q, a, Db())
    {
      if q.id !in roles || roles[q.id].owner != q.owner {
        return NotFound;
      }
      if FieldName(roles[q.id].name) == PRIMARY_ROLE_NAME {
        return ReadOnly;
      }
      var role := new Role(roles[q.id]);
      if q.newPermissions.Some? && q.newPermissions.value != {} {
        role.permissions := q.newPermissions.value;
      }
      if q.newName.Some? {
        role.name := q.newName.value;
      }
      if q.newDescription.Some? {
        role.description := q.newDescription.value;
      }
      a := Save(role, q.id);
    }

    method DestroyView(q: Request) returns (a: Response)
      requires q.DestroyRole?
      modifies this
      ensures Serves(old(Db()), q, a, Db())
    {
      if q.id !in roles || roles[q.id].owner != q.owner {
        return NotFound;
      }
      if DisplayName(q.owner, roles[q.id].name) == PRIMARY_ROLE_NAME {
        return ReadOnly;
      }
      roles := roles - {q.id};
      a := Deleted;
    }

    method CreateAndAssignRoles(q: Request) returns (a: Response)
      requires q.CreateAdmin? && ValidDefaults(q.defaults) && IsId(q.owner) && OwnsNothing(Db(), q.owner)
      modifies this
      ensures Serves(old(Db()), q, a, Db())
    {
      assert AddDefaults(Db(), q.owner, q.defaults[..0]) == Db();
      hide AddDefaults, Store;
      for i := 0 to |q.defaults|
        invariant Db() == AddDefaults(old(Db()), q.owner, q.defaults[..i])
      {
        OneMoreDefault(old(Db()), q.owner, q.defaults, i);
        var d := q.defaults[i];
        var role := new Role(Row(q.owner, q.owner + ":" + d.name, d.description, d.permissions));
        var _ := Save(role, nextId);
      }
      assert q.defaults[..|q.defaults|] == q.defaults;
      a := Saved;
    }
  }

  // ---------------------------------------------------------------- runs

  datatype Transition = Transition(request: Request, response: Response, post: State)

  type Trace = seq<Transition>

  function Final(s: State, tr: Trace): State {
    if |tr| == 0 then s else tr[|tr| - 1].post
  }

  ghost predicate Run(s: State, tr: Trace) {
    |tr| == 0 ||
    var n := |tr| - 1;
    && Run(s, tr[..n])
    && Serves(Final(s, tr[..n]), tr[n].request, tr[n].response, tr[n].post)
  }

  /** Names are unique and start with their owner's identifier. */
  ghost predicate Consistent(s: State) {
    && (forall i, j :: i in s.roles && j in s.roles && s.roles[i].name == s.roles[j].name ==> i == j)
    && (forall i :: i in s.roles ==> i < s.nextId && IsId(s.roles[i].owner) && s.roles[i].owner <= s.roles[i].name)
  }

  lemma StoreKeepsConsistent(s: State, id: nat, row: Row)
    requires Consistent(s) && IsId(row.owner) && row.owner <= row.name && id <= s.nextId
    ensures Consistent(Store(s, id, row).1)
  {
  }

  lemma {:induction false} AddDefaultsKeepsConsistent(s: State, owner: string, defaults: seq<DefaultRole>)
    requires Consistent(s) && IsId(owner)
    ensures Consistent(AddDefaults(s, owner, defaults))
    ensures s.nextId <= AddDefaults(s, owner, defaults).nextId
    ensures forall i :: i in s.roles ==>
              i in AddDefaults(s, owner, defaults).roles && AddDefaults(s, owner, defaults).roles[i] == s.roles[i]
    ensures forall i :: i in AddDefaults(s, owner, defaults).roles && i !in s.roles ==>
              AddDefaults(s, owner, defaults).roles[i].owner == owner
  {
    if |defaults| > 0 {
      var n := |defaults| - 1;
      AddDefaultsKeepsConsistent(s, owner, defaults[..n]);
      SavingIsIdempotent(owner, owner + ":" + defaults[n].name);
      var before := AddDefaults(s, owner, defaults[..n]);
      StoreKeepsConsistent(before, before.nextId, DefaultRow(owner, defaults[n]));
    }
  }

  predicate IsPrimary(s: State, id: nat, owner: string) {
    id in s.roles && s.roles[id].owner == owner && DisplayName(owner, s.roles[id].name) == PRIMARY_ROLE_NAME
  }

  lemma PrimaryIsStoredExactly(s: State, id: nat, owner: string)
    requires Consistent(s) && id in s.roles && s.roles[id].owner == owner
    ensures IsPrimary(s, id, owner) <==> s.roles[id].name == owner + ":" + PRIMARY_ROLE_NAME
  {
    var stored := s.roles[id].name;
    if owner + ":" <= stored {
      assert stored == owner + ":" + stored[|owner| + 1..];
    } else {
      var full := owner + ":" + PRIMARY_ROLE_NAME;
      assert full[..|owner| + 1] == owner + ":";
      assert |stored| >= ID_LENGTH > |PRIMARY_ROLE_NAME|;
    }
  }

  lemma OnlyOnePrimary(s: State, i: nat, j: nat, owner: string)
    requires Consistent(s) && IsPrimary(s, i, owner) && IsPrimary(s, j, owner)
    ensures i == j
  {
    PrimaryIsStoredExactly(s, i, owner);
    PrimaryIsStoredExactly(s, j, owner);
  }

  lemma StepKeepsConsistent(s: State, t: Transition)
    requires Consistent(s) && Serves(s, t.request, t.response, t.post)
    ensures Consistent(t.post)
  {
    match t.request {
      case CreateAdmin(o, defaults) => AddDefaultsKeepsConsistent(s, o, defaults);
      case CreateRole(o, name, description, permissions) =>
        SavingIsIdempotent(o, name);
        StoreKeepsConsistent(s, s.nextId, Row(o, StoredName(o, name), description, permissions));
      case UpdateRole(o, k, name, _, _) =>
        if k in s.roles {
          var newName := if name.Some? then name.value else s.roles[k].name;
          SavingIsIdempotent(s.roles[k].owner, newName);
          StoredRowsKeepConsistent(s, k, s.roles[k].owner, newName);
        }
      case DestroyRole(_, _) =>
    }
  }

  lemma StoredRowsKeepConsistent(s: State, id: nat, owner: string, name: string)
    requires Consistent(s) && IsId(owner) && owner <= StoredName(owner, name) && id <= s.nextId
    ensures forall d, p :: Consistent(Store(s, id, Row(owner, StoredName(owner, name), d, p)).1)
  {
    forall d, p ensures Consistent(Store(s, id, Row(owner, StoredName(owner, name), d, p)).1) {
      StoreKeepsConsistent(s, id, Row(owner, StoredName(owner, name), d, p));
    }
  }

  /** No request changes or deletes an existing primary role. */
  lemma StepKeepsPrimary(s: State, t: Transition, id: nat, owner: string)
    requires Consistent(s) && Serves(s, t.request, t.response, t.post)
    requires IsPrimary(s, id, owner)
    ensures id in t.post.roles && t.post.roles[id] == s.roles[id]
  {
    assert id < s.nextId;
    match t.request {
      case CreateAdmin(o, defaults) => AddDefaultsKeepsConsistent(s, o, defaults);
      case CreateRole(_, _, _, _) =>
      case UpdateRole(_, _, _, _, _) =>
        PrimaryIsStoredExactly(s, id, owner);
        FieldNameAfterColon(owner, PRIMARY_ROLE_NAME);
      case DestroyRole(_, _) =>
    }
  }

  lemma {:induction false} ConsistentAlways(s: State, tr: Trace)
    requires Consistent(s) && Run(s, tr)
    ensures Consistent(Final(s, tr))
  {
    if |tr| > 0 {
      ConsistentAlways(s, tr[..|tr| - 1]);
      StepKeepsConsistent(Final(s, tr[..|tr| - 1]), tr[|tr| - 1]);
    }
  }

  lemma AddOneDefault(s: State, owner: string, d: DefaultRole)
    requires forall j :: j in s.roles ==> s.roles[j].name != owner + ":" + d.name
    ensures Store(s, s.nextId, DefaultRow(owner, d)).1.roles ==
            s.roles[s.nextId := Row(owner, owner + ":" + d.name, d.description, d.permissions)]
  {
    assert owner <= owner + ":" + d.name;
  }

  /** The last default role is added under a new number and its own name. */
  lemma LastDefaultIsAdded(s: State, owner: string, defaults: seq<DefaultRole>)
    requires Consistent(s) && IsId(owner) && OwnsNothing(s, owner) && |defaults| > 0
    requires forall i, j :: 0 <= i < j < |defaults| ==> defaults[i].name != defaults[j].name
    ensures var d := defaults[|defaults| - 1];
            var before := AddDefaults(s, owner, defaults[..|defaults| - 1]);
            && before.nextId !in before.roles
            && AddDefaults(s, owner, defaults).roles
               == before.roles[before.nextId := Row(owner, owner + ":" + d.name, d.description, d.permissions)]
  {
    var n := |defaults| - 1;
    AddDefaultsKeepsConsistent(s, owner, defaults[..n]);
    NoDefaultUsesName(s, owner, defaults[..n], defaults[n].name);
    AddOneDefault(AddDefaults(s, owner, defaults[..n]), owner, defaults[n]);
    hide Store, DefaultRow;
  }

  /** Each default role ends up stored under its own name, with its own permissions. */
  lemma {:induction false} DefaultIsStored(s: State, owner: string, defaults: seq<DefaultRole>, k: nat)
      returns (id: nat)
    requires Consistent(s) && IsId(owner) && OwnsNothing(s, owner)
    requires forall i, j :: 0 <= i < j < |defaults| ==> defaults[i].name != defaults[j].name
    requires k < |defaults|
    ensures id in AddDefaults(s, owner, defaults).roles
    ensures AddDefaults(s, owner, defaults).roles[id] ==
            Row(owner, owner + ":" + defaults[k].name, defaults[k].description, defaults[k].permissions)
  {
    var n := |defaults| - 1;
    LastDefaultIsAdded(s, owner, defaults);
    hide AddDefaults, Consistent, OwnsNothing;
    if k < n {
      id := DefaultIsStored(s, owner, defaults[..n], k);
    } else {
      id := AddDefaults(s, owner, defaults[..n]).nextId;
    }
  }

  /** Creating an admin gives it a primary role, with the default permissions. */
  lemma AdminGetsPrimary(s: State, owner: string, defaults: seq<DefaultRole>, k: nat) returns (id: nat)
    requires Consistent(s) && IsId(owner) && OwnsNothing(s, owner)
    requires forall i, j :: 0 <= i < j < |defaults| ==> defaults[i].name != defaults[j].name
    requires k < |defaults| && defaults[k].name == PRIMARY_ROLE_NAME
    ensures IsPrimary(AddDefaults(s, owner, defaults), id, owner)
    ensures AddDefaults(s, owner, defaults).roles[id].permissions == defaults[k].permissions
  {
    id := DefaultIsStored(s, owner, defaults, k);
    AddDefaultsKeepsConsistent(s, owner, defaults);
    PrimaryIsStoredExactly(AddDefaults(s, owner, defaults), id, owner);
  }

  lemma {:induction false} NoDefaultUsesName(s: State, owner: string, defaults: seq<DefaultRole>, name: string)
    requires Consistent(s) && IsId(owner) && OwnsNothing(s, owner)
    requires forall i :: 0 <= i < |defaults| ==> defaults[i].name != name
    ensures forall j :: j in AddDefaults(s, owner, defaults).roles ==>
              AddDefaults(s, owner, defaults).roles[j].name != owner + ":" + name
  {
    var full := owner + ":" + name;
    if |defaults| == 0 {
      forall j | j in s.roles ensures s.roles[j].name != full {
        assert s.roles[j].name[..ID_LENGTH] == s.roles[j].owner;
        assert full[..ID_LENGTH] == owner;
      }
    } else {
      var n := |defaults| - 1;
      NoDefaultUsesName(s, owner, defaults[..n], name);
      var other := owner + ":" + defaults[n].name;
      assert owner <= other;
      assert other[|owner| + 1..] == defaults[n].name && full[|owner| + 1..] == name;
    }
  }

  lemma {:induction false} PrimaryKept(s: State, tr: Trace, id: nat, owner: string)
    requires Consistent(s) && Run(s, tr) && IsPrimary(s, id, owner)
    ensures Consistent(Final(s, tr))
    ensures id in Final(s, tr).roles && Final(s, tr).roles[id] == s.roles[id]
  {
    if |tr| > 0 {
      PrimaryKept(s, tr[..|tr| - 1], id, owner);
      StepKeepsConsistent(Final(s, tr[..|tr| - 1]), tr[|tr| - 1]);
      StepKeepsPrimary(Final(s, tr[..|tr| - 1]), tr[|tr| - 1], id, owner);
    }
  }

  /** Once an admin is created, along every run of creates, updates and deletes by anyone, it owns
      exactly one role displayed as "Administrator", whose stored row never changes. */
  lemma PrimaryRoleSafety(s: State, create: Transition, tr: Trace) returns (id: nat, k: nat)
    requires Consistent(s) && create.request.CreateAdmin?
    requires Serves(s, create.request, create.response, create.post) && Run(create.post, tr)
    ensures var now := Final(create.post, tr);
            var owner := create.request.owner;
            && k < |create.request.defaults| && create.request.defaults[k].name == PRIMARY_ROLE_NAME
            && (forall j :: IsPrimary(now, j, owner) <==> j == id)
            && id in now.roles && id in create.post.roles
            && now.roles[id].permissions == create.request.defaults[k].permissions
            && now.roles[id] == create.post.roles[id]
  {
    var owner, defaults := create.request.owner, create.request.defaults;
    k :| 0 <= k < |defaults| && defaults[k].name == PRIMARY_ROLE_NAME;
    id := AdminGetsPrimary(s, owner, defaults, k);
    AddDefaultsKeepsConsistent(s, owner, defaults);
    PrimaryKept(create.post, tr, id, owner);
    forall j | IsPrimary(Final(create.post, tr), j, owner) ensures j == id {
      OnlyOnePrimary(Final(create.post, tr), j, id, owner);
    }
  }

  /** The API's name field does not share that uniqueness: a name that starts with the owner's own
      identifier is stored as given and can be shown as "Administrator" too. */
  lemma NameFieldCanShowTwo(s: State, owner: string)
    requires Consistent(s) && IsId(owner) && !NameTaken(s, s.nextId, owner + "x:" + PRIMARY_ROLE_NAME)
    ensures var q := CreateRole(owner, owner + "x:" + PRIMARY_ROLE_NAME, "", {});
            var after := Create(s, q).1;
            && Create(s, q).0 == Saved
            && FieldName(after.roles[s.nextId].name) == PRIMARY_ROLE_NAME
            && !IsPrimary(after, s.nextId, owner)
  {
    var name := owner + "x:" + PRIMARY_ROLE_NAME;
    assert owner <= name by { assert name[..|owner|] == owner; }
    assert name == (owner + "x") + ":" + PRIMARY_ROLE_NAME;
    FieldNameAfterColon(owner + "x", PRIMARY_ROLE_NAME);
    assert |name| > |PRIMARY_ROLE_NAME|;
    assert name[|owner|] == 'x' && (owner + ":")[|owner|] == ':';
  }

  // ---------------------------------------------------------------- what the API shows

  /** The name field and `display_name` agree on a stored name exactly when a colon follows the owner. */
  lemma FieldAgreesIff(owner: string, stored: string)
    requires ':' !in owner && owner != "" && owner <= stored
    ensures FieldName(stored) == DisplayName(owner, stored) <==> owner + ":" <= stored
  {
    if owner + ":" <= stored {
      FieldNameAfterColon(owner, stored[|owner| + 1..]);
      assert stored == owner + ":" + stored[|owner| + 1..];
    } else {
      FieldNameIsShorter(stored);
    }
  }

  lemma {:induction false} BeforeColon(stored: string) returns (head: string)
    requires FieldName(stored) != ""
    ensures ':' !in head && stored == head + ":" + FieldName(stored)
  {
    if stored[0] == ':' {
      head := "";
    } else {
      var rest := BeforeColon(stored[1..]);
      head := [stored[0]] + rest;
    }
  }

  /** A stored name with something between the owner and the first colon before "Administrator". */
  ghost predicate Mimics(owner: string, name: string) {
    exists middle: string :: middle != "" && ':' !in middle && name == owner + middle + ":" + PRIMARY_ROLE_NAME
  }

  lemma ShownAsPrimary(owner: string, name: string)
    requires ':' !in owner && owner <= name
    ensures FieldName(name) == PRIMARY_ROLE_NAME <==> name == owner + ":" + PRIMARY_ROLE_NAME || Mimics(owner, name)
  {
    if FieldName(name) == PRIMARY_ROLE_NAME {
      var head := BeforeColon(name);
      OwnerPrecedesColon(owner, head, name);
      var middle := head[|owner|..];
      assert head == owner + middle;
      assert middle == "" ==> head == owner;
    }
    if name == owner + ":" + PRIMARY_ROLE_NAME {
      FieldNameAfterColon(owner, PRIMARY_ROLE_NAME);
    }
    if Mimics(owner, name) {
      var middle: string :| middle != "" && ':' !in middle && name == owner + middle + ":" + PRIMARY_ROLE_NAME;
      FieldNameAfterColon(owner + middle, PRIMARY_ROLE_NAME);
    }
  }

  lemma OwnerPrecedesColon(owner: string, head: string, name: string)
    requires ':' !in owner && owner <= name && head + ":" <= name
    ensures owner <= head
  {
    assert name[|head|] == (head + ":")[|head|] == ':';
    assert forall i :: 0 <= i < |owner| ==> owner[i] == name[i] && owner[i] != ':';
    assert |owner| <= |head|;
    assert name[..|head|] == (head + ":")[..|head|] == head;
  }

  /** In every consistent state the API shows a role that is not the primary one as "Administrator"
      exactly when its name mimics the primary one. */
  lemma ShownTwiceIff(s: State, id: nat, owner: string)
    requires Consistent(s) && id in s.roles && s.roles[id].owner == owner
    ensures FieldName(s.roles[id].name) == PRIMARY_ROLE_NAME && !IsPrimary(s, id, owner)
            <==> Mimics(owner, s.roles[id].name)
  {
    var name := s.roles[id].name;
    ShownAsPrimary(owner, name);
    PrimaryIsStoredExactly(s, id, owner);
    if Mimics(owner, name) {
      var middle: string :| middle != "" && ':' !in middle && name == owner + middle + ":" + PRIMARY_ROLE_NAME;
      var exact := owner + ":" + PRIMARY_ROLE_NAME;
      assert name[|owner|] == middle[0] != ':' == exact[|owner|];
    }
  }

  /** A create leads there exactly when the name in the request itself mimics the primary one. */
  lemma CreateShowsSecondIff(s: State, q: Request)
    requires Consistent(s) && q.CreateRole? && IsId(q.owner) && Create(s, q).0 == Saved
    ensures var after := Create(s, q).1;
            && s.nextId in after.roles
            && (FieldName(after.roles[s.nextId].name) == PRIMARY_ROLE_NAME && !IsPrimary(after, s.nextId, q.owner)
                <==> Mimics(q.owner, q.name))
  {
    var after := Create(s, q).1;
    StepKeepsConsistent(s, Transition(q, Saved, after));
    ShownTwiceIff(after, s.nextId, q.owner);
    if !(q.owner <= q.name) {
      NamesInvertIff(q.owner, q.name);
    }
  }

  /** So does an update: exactly when it gives the role a new name that mimics the primary one. */
  lemma UpdateShowsSecondIff(s: State, q: Request)
    requires Consistent(s) && q.UpdateRole? && Update(s, q).0 == Saved
    ensures var after := Update(s, q).1;
            && q.id in after.roles
            && (FieldName(after.roles[q.id].name) == PRIMARY_ROLE_NAME && !IsPrimary(after, q.id, q.owner)
                <==> q.newName.Some? && Mimics(q.owner, q.newName.value))
  {
    var after := Update(s, q).1;
    StepKeepsConsistent(s, Transition(q, Saved, after));
    ShownTwiceIff(after, q.id, q.owner);
    if q.newName.None? {
      assert after.roles[q.id].name == s.roles[q.id].name;
    } else {
      StoredMimicsIff(q.owner, q.newName.value);
    }
  }

  /** A name mimics the primary one exactly when it does as stored. */
  lemma StoredMimicsIff(owner: string, name: string)
    requires IsId(owner)
    ensures Mimics(owner, StoredName(owner, name)) <==> Mimics(owner, name)
  {
    if !(owner <= name) {
      var stored := owner + ":" + name;
      assert stored[|owner|] == ':';
      forall middle: string | middle != "" && ':' !in middle
        ensures stored != owner + middle + ":" + PRIMARY_ROLE_NAME && name != owner + middle + ":" + PRIMARY_ROLE_NAME
      {
        var mimic := owner + middle + ":" + PRIMARY_ROLE_NAME;
        assert mimic[|owner|] == middle[0];
        assert mimic[..|owner|] == owner;
      }
    }
  }

  predicate TidyName(owner: string, name: string) {
    owner <= name ==> owner + ":" <= name
  }

  /** A request names a role without the owner's identifier, or with the identifier and its colon. */
  predicate Tidy(q: Request) {
    match q
    case CreateRole(owner, name, _, _) => TidyName(owner, name)
    case UpdateRole(owner, _, name, _, _) => name.Some? ==> TidyName(owner, name.value)
    case _ => true
  }

  predicate Prefixed(s: State) {
    forall i :: i in s.roles ==> s.roles[i].owner + ":" <= s.roles[i].name
  }

  lemma TidyIsPrefixed(owner: string, name: string)
    requires TidyName(owner, name)
    ensures owner + ":" <= StoredName(owner, name)
  {
    if !(owner <= name) {
      var stored := owner + ":" + name;
      assert stored[..|owner| + 1] == owner + ":";
    }
  }

  lemma {:induction false} DefaultsArePrefixed(s: State, owner: string, defaults: seq<DefaultRole>)
    requires Prefixed(s)
    ensures Prefixed(AddDefaults(s, owner, defaults))
  {
    if |defaults| > 0 {
      var n := |defaults| - 1;
      DefaultsArePrefixed(s, owner, defaults[..n]);
      var name := owner + ":" + defaults[n].name;
      assert name[..|owner| + 1] == owner + ":";
      TidyIsPrefixed(owner, name);
    }
  }

  lemma StepKeepsPrefixed(s: State, t: Transition)
    requires Prefixed(s) && Serves(s, t.request, t.response, t.post) && Tidy(t.request)
    ensures Prefixed(t.post)
  {
    match t.request {
      case CreateAdmin(o, defaults) => DefaultsArePrefixed(s, o, defaults);
      case CreateRole(o, name, _, _) => TidyIsPrefixed(o, name);
      case UpdateRole(o, k, name, _, _) =>
        if k in s.roles && s.roles[k].owner == o {
          TidyIsPrefixed(o, if name.Some? then name.value else s.roles[k].name);
        }
      case DestroyRole(_, _) =>
    }
  }

  /** Along every run of tidy requests the API shows exactly the primary role as "Administrator". */
  lemma {:induction false} TidyRunsShowOnePrimary(s: State, tr: Trace, id: nat, owner: string)
    requires Consistent(s) && Prefixed(s) && Run(s, tr)
    requires forall i :: 0 <= i < |tr| ==> Tidy(tr[i].request)
    requires id in Final(s, tr).roles && Final(s, tr).roles[id].owner == owner
    ensures FieldName(Final(s, tr).roles[id].name) == PRIMARY_ROLE_NAME <==> IsPrimary(Final(s, tr), id, owner)
  {
    TidyRunsStayPrefixed(s, tr);
    ConsistentAlways(s, tr);
    FieldAgreesIff(owner, Final(s, tr).roles[id].name);
  }

  lemma {:induction false} TidyRunsStayPrefixed(s: State, tr: Trace)
    requires Prefixed(s) && Run(s, tr)
    requires forall i :: 0 <= i < |tr| ==> Tidy(tr[i].request)
    ensures Prefixed(Final(s, tr))
  {
    if |tr| > 0 {
      var before := tr[..|tr| - 1];
      TidyRunsStayPrefixed(s, before);
      StepKeepsPrefixed(Final(s, before), tr[|tr| - 1]);
    }
  }

  // ---------------------------------------------------------------- what a request stores

  /** A create is saved exactly when the name is not the primary one and the name it is stored under is
      free; then one role is added, with everything as sent. */
  lemma CreateStores(s: State, q: Request, a: Response, s': State)
    requires q.CreateRole? && Serves(s, q, a, s') && Consistent(s)
    ensures var stored := if q.owner <= q.name then q.name else q.owner + ":" + q.name;
            && (a == Saved <==> q.name != "Administrator" && forall i :: i in s.roles ==> s.roles[i].name != stored)
            && (a == ReadOnly <==> q.name == "Administrator")
            && (a == Saved ==> s'.roles == s.roles[s.nextId := Row(q.owner, stored, q.description, q.permissions)])
    ensures a == Saved ==> s.nextId !in s.roles && s'.nextId == s.nextId + 1
    ensures a != Saved ==> s' == s && (a == ReadOnly || a == Duplicate)
  {
    assert s.nextId !in s.roles;
  }

  /** An update reaches the caller's own roles other than the one shown as primary, and is saved exactly
      when the resulting name is free; then that role has what was sent, and what it had where nothing
      was sent; sending no permissions at all, or an empty set, keeps them. */
  lemma UpdateStores(s: State, q: Request, a: Response, s': State)
    requires q.UpdateRole? && Serves(s, q, a, s') && Consistent(s)
    ensures a == NotFound <==> q.id !in s.roles || s.roles[q.id].owner != q.owner
    ensures a != NotFound ==>
              var was := s.roles[q.id];
              var name := if q.newName.Some? then q.newName.value else was.name;
              var stored := if q.owner <= name then name else q.owner + ":" + name;
              && (a == ReadOnly <==> FieldName(was.name) == "Administrator")
              && (a == Saved <==> a != ReadOnly && forall i :: i in s.roles && i != q.id ==> s.roles[i].name != stored)
              && (a == Saved ==>
                    s'.roles == s.roles[q.id := Row(
                      q.owner, stored,
                      if q.newDescription.Some? then q.newDescription.value else was.description,
                      if q.newPermissions.Some? && q.newPermissions.value != {} then q.newPermissions.value
                      else was.permissions)])
    ensures a != Saved ==> s' == s
  {
  }

  /** A delete removes one of the caller's own roles, never the primary one, and nothing else. */
  lemma DestroyRemoves(s: State, q: Request, a: Response, s': State)
    requires q.DestroyRole? && Serves(s, q, a, s') && Consistent(s)
    ensures a == Deleted <==>
              q.id in s.roles && s.roles[q.id].owner == q.owner && s.roles[q.id].name != q.owner + ":Administrator"
    ensures a == Deleted ==> s'.roles == s.roles - {q.id} && q.id !in s'.roles
    ensures a != Deleted ==> s' == s
  {
    if q.id in s.roles && s.roles[q.id].owner == q.owner {
      PrimaryIsStoredExactly(s, q.id, q.owner);
      assert q.owner + ":Administrator" == q.owner + ":" + PRIMARY_ROLE_NAME;
    }
  }
}
