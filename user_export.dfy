/**
  The user export (`export_users.py`): every user record fetched from the
  console's GraphQL API is flattened into one CSV row with a fixed set of
  ten columns; the file is a header followed by one row per user.
 */
module UserExport {
  import opened Wrappers
  import opened Text

  /** A scalar JSON value of a user record. */
  datatype Value = Null | Text(text: string) | Flag(flag: bool)

  /**
    One user node as the GraphQL query selects it. `roles` is the `roles`
    object, which is either null or holds its one selected field `admin`
    (the value of that field, which may itself be null); `groups` is the
    list of the names of the user's groups, or null.
   */
  datatype UserNode = UserNode(
    id: Value,
    name: Value,
    email: Value,
    roles: Option<Value>,
    pluralId: Value,
    deletedAt: Value,
    profile: Value,
    insertedAt: Value,
    updatedAt: Value,
    groups: Option<seq<string>>)

  /** The CSV field list, in column order. */
  const FieldNames: seq<string> :=
    ["id", "name", "email", "admin", "plural_id", "deleted_at", "profile", "inserted_at", "updated_at", "groups"]

  type Record = seq<(string, Value)>

  /** The value under `key`, if the record has that key. */
  function Field(r: Record, key: string): (v: Option<Value>)
    ensures v.Some? <==> key in KeysOf(r)
    ensures v.Some? ==> exists i :: 0 <= i < |r| && r[i] == (key, v.value)
  {
    if |r| == 0 then None
    else if r[0].0 == key then Some(r[0].1)
    else
      var v := Field(r[1..], key);
      assert v.Some? ==> exists i :: 0 <= i < |r| && r[i] == (key, v.value) by {
        if v.Some? {
          var i :| 0 <= i < |r[1..]| && r[1..][i] == (key, v.value);
          assert r[i + 1] == (key, v.value);
        }
      }
      assert KeysOf(r) == [r[0].0] + KeysOf(r[1..]);
      v
  }

  /** In a record whose keys are distinct, each key finds its own value. */
  lemma {:induction false} FieldAt(r: Record, i: nat)
    requires Distinct(KeysOf(r)) && i < |r|
    ensures Field(r, r[i].0) == Some(r[i].1)
    decreases i
  {
    if i > 0 {
      assert KeysOf(r)[0] != KeysOf(r)[i];
      assert Distinct(KeysOf(r[1..])) by {
        forall a, b | 0 <= a < b < |r[1..]| ensures KeysOf(r[1..])[a] != KeysOf(r[1..])[b] {
          assert KeysOf(r)[a + 1] != KeysOf(r)[b + 1];
        }
      }
      FieldAt(r[1..], i - 1);
    }
  }

  lemma FieldNamesDistinct()
    ensures Distinct(FieldNames)
  {
  }

  /** The `admin` column: `roles["admin"]` when `roles` is present, `False` otherwise. */
  function Admin(roles: Option<Value>): (admin: Value)
    ensures roles.None? ==> admin == Flag(false)
    ensures roles.Some? ==> admin == roles.value
  {
    match roles
    case None => Flag(false)
    case Some(v) => v
  }

  /** The `groups` column: the group names joined by `;`, or `""` when there are none. */
  function GroupsCell(groups: Option<seq<string>>): (cell: string)
    ensures groups.None? || groups == Some([]) ==> cell == ""
    ensures groups.Some? && groups.value != [] ==> cell == Join(groups.value, ';')
  {
    if groups.Some? && |groups.value| > 0 then Join(groups.value, ';') else ""
  }

  /** `process_user(user)`: the flattened record, keyed by the field list in its order. */
  function ProcessUser(u: UserNode): (r: Record)
    ensures KeysOf(r) == FieldNames
  {
    var r: Record :=
      [("id", u.id), ("name", u.name), ("email", u.email), ("admin", Admin(u.roles)),
       ("plural_id", u.pluralId), ("deleted_at", u.deletedAt), ("profile", u.profile),
       ("inserted_at", u.insertedAt), ("updated_at", u.updatedAt), ("groups", Text(GroupsCell(u.groups)))];
    assert KeysOf(r) == FieldNames;
    r
  }

  /** `id`, `name`, `email` and `profile` are copied unchanged. */
  lemma CopiedFields(u: UserNode)
    ensures Field(ProcessUser(u), "id") == Some(u.id)
    ensures Field(ProcessUser(u), "name") == Some(u.name)
    ensures Field(ProcessUser(u), "email") == Some(u.email)
    ensures Field(ProcessUser(u), "profile") == Some(u.profile)
  {
    var r := ProcessUser(u);
    FieldNamesDistinct();
    FieldAt(r, 0);
    FieldAt(r, 1);
    FieldAt(r, 2);
    FieldAt(r, 6);
  }

  /** The camel-case fields are copied unchanged into their snake-case columns. */
  lemma RenamedFields(u: UserNode)
    ensures Field(ProcessUser(u), "plural_id") == Some(u.pluralId)
    ensures Field(ProcessUser(u), "deleted_at") == Some(u.deletedAt)
    ensures Field(ProcessUser(u), "inserted_at") == Some(u.insertedAt)
    ensures Field(ProcessUser(u), "updated_at") == Some(u.updatedAt)
  {
    var r := ProcessUser(u);
    FieldNamesDistinct();
    FieldAt(r, 4);
    FieldAt(r, 5);
    FieldAt(r, 7);
    FieldAt(r, 8);
  }

  /** `admin` defaults to `False` when `roles` is null, and `groups` is the joined group names. */
  lemma DerivedFields(u: UserNode)
    ensures Field(ProcessUser(u), "admin") == Some(Admin(u.roles))
    ensures Field(ProcessUser(u), "groups") == Some(Text(GroupsCell(u.groups)))
  {
    var r := ProcessUser(u);
    FieldNamesDistinct();
    FieldAt(r, 3);
    FieldAt(r, 9);
  }

  /** One CSV row: the values of a record in the order of the field list. */
  function CsvRow(r: Record, fields: seq<string>): (row: seq<Value>)
    requires forall f :: f in fields ==> f in KeysOf(r)
    ensures |row| == |fields|
    ensures forall i :: 0 <= i < |fields| ==> Field(r, fields[i]) == Some(row[i])
  {
    if |fields| == 0 then [] else [Field(r, fields[0]).value] + CsvRow(r, fields[1..])
  }

  /** The rows `export_to_csv` writes after the header: one per user, in input order. */
  function UserRows(users: seq<UserNode>): (rows: seq<seq<Value>>)
    ensures |rows| == |users|
    ensures forall k :: 0 <= k < |users| ==> rows[k] == CsvRow(ProcessUser(users[k]), FieldNames)
  {
    if |users| == 0 then [] else [CsvRow(ProcessUser(users[0]), FieldNames)] + UserRows(users[1..])
  }

  /** The written file: the header, then the rows. */
  datatype CsvFile = CsvFile(header: seq<string>, rows: seq<seq<Value>>)

  /** `export_to_csv(users)` without the file: what the CSV writer is given. */
  function ExportToCsv(users: seq<UserNode>): (file: CsvFile)
    ensures file.header == FieldNames
    ensures |file.rows| == |users|
    ensures forall k :: 0 <= k < |users| ==> |file.rows[k]| == |FieldNames|
  {
    CsvFile(FieldNames, UserRows(users))
  }

  /** Column `i` of user `k`'s row holds that user's value of field `FieldNames[i]`. */
  lemma CellOfRow(users: seq<UserNode>, k: nat, i: nat)
    requires k < |users| && i < |FieldNames|
    ensures Field(ProcessUser(users[k]), FieldNames[i]) == Some(ExportToCsv(users).rows[k][i])
  {
  }

  /** The users' group names come back from their `groups` cell when no name holds `;`. */
  lemma GroupsRoundTrip(groups: seq<string>)
    requires |groups| > 0
    requires forall i :: 0 <= i < |groups| ==> ';' !in groups[i]
    ensures Split(GroupsCell(Some(groups)), ';') == groups
  {
    SplitJoin(groups, ';');
  }

  /** A user with null roles and null groups: `admin` is `False` and `groups` is empty. */
  lemma DefaultsExample(u: UserNode)
    requires u.roles.None? && u.groups.None?
    ensures CsvRow(ProcessUser(u), FieldNames)[3] == Flag(false)
    ensures CsvRow(ProcessUser(u), FieldNames)[9] == Text("")
  {
    var row := CsvRow(ProcessUser(u), FieldNames);
    DerivedFields(u);
    assert FieldNames[3] == "admin" && FieldNames[9] == "groups";
    assert Field(ProcessUser(u), "admin") == Some(row[3]);
    assert Field(ProcessUser(u), "groups") == Some(row[9]);
  }
}
