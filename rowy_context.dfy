/**
 * The application context: the tables a user may see and their sections,
 * the union of the tables' roles, the user stamp written with every edit,
 * and the cell update with its error notification.
 */
module RowyContext {
  import opened Values
  import opened Strings
  import opened Collections
  import opened Records
  import opened TableTypes

  const AdminRole := "ADMIN"
  const OtherSection := "OTHER"

  // ---------------------------------------------------------------------
  // Visible tables and sections
  // ---------------------------------------------------------------------

  /** The user is an admin or shares one of the table's roles. */
  predicate CanSee(userRoles: seq<string>, t: TableSettings) {
    AdminRole in userRoles || exists r :: r in t.roles && r in userRoles
  }

  /** `table.section ? table.section.trim() : "OTHER"`. */
  function NormalSection(section: Option<string>): (s: string)
    ensures section.None? || section.value == "" ==> s == OtherSection
    ensures section.Some? && section.value != "" ==> s == Trim(section.value)
  {
    if section.Some? && section.value != "" then Trim(section.value) else OtherSection
  }

  /** A visible table as the context lists it: its section normalised. */
  function Normalised(t: TableSettings): TableSettings {
    t.(section := Some(NormalSection(t.section)))
  }

  function NameOf(t: TableSettings): string {
    t.name
  }

  function SectionOf(t: TableSettings): string {
    t.section.GetOr("")
  }

  /** `CanSee` as the filter's callback. */
  function Viewer(userRoles: seq<string>): TableSettings -> bool {
    t => CanSee(userRoles, t)
  }

  /** The tables the user can see, in their order. */
  function VisibleFrom(tables: seq<TableSettings>, userRoles: seq<string>): (r: seq<TableSettings>)
    ensures forall t :: t in r <==> t in tables && CanSee(userRoles, t)
  {
    FilterBy(tables, Viewer(userRoles))
  }

  function NormaliseAll(tables: seq<TableSettings>): (r: seq<TableSettings>)
    ensures |r| == |tables|
    ensures forall i :: 0 <= i < |tables| ==> r[i] == Normalised(tables[i])
  {
    seq(|tables|, i requires 0 <= i < |tables| => Normalised(tables[i]))
  }

  /**
   * `filteredTables`: the tables sorted by name, those the user can see,
   * each with its section normalised.
   */
  function VisibleTables(tables: seq<TableSettings>, userRoles: seq<string>): (r: seq<TableSettings>)
    ensures |r| <= |tables|
    ensures |r| == |VisibleFrom(tables, userRoles)|
    ensures multiset(r) == multiset(NormaliseAll(VisibleFrom(tables, userRoles)))
    ensures forall i :: 0 <= i < |r| ==> r[i].section.Some?
  {
    LessEqIsTotalPreorder();
    var sorted := SortBy(tables, NameOf, LessEq);
    FilterPermutes(sorted, tables, Viewer(userRoles));
    NormaliseAllPermutes(VisibleFrom(sorted, userRoles), VisibleFrom(tables, userRoles));
    NormaliseAll(VisibleFrom(sorted, userRoles))
  }

  lemma NormaliseAllAppend(u: seq<TableSettings>, v: seq<TableSettings>)
    ensures NormaliseAll(u + v) == NormaliseAll(u) + NormaliseAll(v)
  {
    assert forall i :: 0 <= i < |u + v| ==> NormaliseAll(u + v)[i] == (NormaliseAll(u) + NormaliseAll(v))[i];
  }

  /** Normalising two permutations of each other gives permutations of each other. */
  lemma {:induction false} NormaliseAllPermutes(a: seq<TableSettings>, b: seq<TableSettings>)
    requires multiset(a) == multiset(b)
    ensures multiset(NormaliseAll(a)) == multiset(NormaliseAll(b))
    decreases |a|
  {
    if a == [] {
      assert |b| == |multiset(b)| == 0;
    } else {
      var x := a[0];
      var j := PermutationSplit(a, b);
      NormaliseAllPermutes(a[1..], b[..j] + b[j + 1..]);
      assert a == [x] + a[1..];
      NormaliseAllCons(x, a[1..]);
      NormaliseAllSplit(b, j);
    }
  }

  /** Normalising a list with the element at `j` taken out loses exactly that element's normal form. */
  lemma NormaliseAllSplit(b: seq<TableSettings>, j: nat)
    requires j < |b| && b == b[..j] + [b[j]] + b[j + 1..]
    ensures multiset(NormaliseAll(b)) == multiset(NormaliseAll(b[..j] + b[j + 1..])) + multiset{Normalised(b[j])}
  {
    NormaliseAllAppend(b[..j] + [b[j]], b[j + 1..]);
    NormaliseAllAppend(b[..j], [b[j]]);
    NormaliseAllAppend(b[..j], b[j + 1..]);
    assert NormaliseAll([b[j]]) == [Normalised(b[j])];
  }

  lemma NameIs(t: TableSettings, n: string)
    ensures KeyIs(NameOf, n)(t) == (t.name == n)
  {
    assert NameOf(t) == t.name;
    assert KeyIs(NameOf, n)(t) == (NameOf(t) == n);
  }

  lemma NormaliseAllCons(x: TableSettings, t: seq<TableSettings>)
    ensures NormaliseAll([x] + t) == [Normalised(x)] + NormaliseAll(t)
  {
    NormaliseAllAppend([x], t);
    assert NormaliseAll([x]) == [Normalised(x)];
  }

  /** Normalising leaves names alone, so it commutes with picking the tables of one name. */
  lemma {:induction false} NormaliseAllByName(s: seq<TableSettings>, n: string)
    ensures FilterBy(NormaliseAll(s), KeyIs(NameOf, n)) == NormaliseAll(FilterBy(s, KeyIs(NameOf, n)))
  {
    if s != [] {
      var x, t := s[0], s[1..];
      var p := KeyIs(NameOf, n);
      assert s == [x] + t;
      NormaliseAllCons(x, t);
      NormaliseAllByName(t, n);
      NameIs(x, n);
      NameIs(Normalised(x), n);
      if x.name == n {
        FilterKeepsHead(Normalised(x), NormaliseAll(t), p);
        FilterKeepsHead(x, t, p);
        NormaliseAllCons(x, FilterBy(t, p));
      } else {
        FilterSkipsHead(Normalised(x), NormaliseAll(t), p);
        FilterSkipsHead(x, t, p);
      }
    }
  }

  /**
   * The sort by name is stable: the visible tables that share a name are
   * listed in the order they are stored in.
   */
  lemma VisibleTablesStable(tables: seq<TableSettings>, userRoles: seq<string>, n: string)
    ensures FilterBy(VisibleTables(tables, userRoles), KeyIs(NameOf, n))
         == NormaliseAll(FilterBy(VisibleFrom(tables, userRoles), KeyIs(NameOf, n)))
  {
    LessEqIsTotalPreorder();
    var sorted := SortBy(tables, NameOf, LessEq);
    NormaliseAllByName(VisibleFrom(sorted, userRoles), n);
    FilterCommutes(sorted, Viewer(userRoles), KeyIs(NameOf, n));
    SortStableKey(tables, NameOf, LessEq, n);
    FilterCommutes(tables, KeyIs(NameOf, n), Viewer(userRoles));
  }

  /** The visible tables are exactly the normalised tables the user can see. */
  lemma VisibleTablesMembers(tables: seq<TableSettings>, userRoles: seq<string>)
    ensures var r := VisibleTables(tables, userRoles);
      && (forall t :: t in tables && CanSee(userRoles, t) ==> Normalised(t) in r)
      && (forall t' :: t' in r ==> exists t :: t in tables && CanSee(userRoles, t) && t' == Normalised(t))
  {
    LessEqIsTotalPreorder();
    var sorted := SortBy(tables, NameOf, LessEq);
    var visible := VisibleFrom(sorted, userRoles);
    var r := VisibleTables(tables, userRoles);
    assert r == NormaliseAll(visible);
    forall t | t in tables && CanSee(userRoles, t) ensures Normalised(t) in r {
      assert t in multiset(sorted);
      assert t in visible;
      var i :| 0 <= i < |visible| && visible[i] == t;
      assert r[i] == Normalised(t);
    }
    forall t' | t' in r ensures exists t :: t in tables && CanSee(userRoles, t) && t' == Normalised(t) {
      var i :| 0 <= i < |r| && r[i] == t';
      assert visible[i] in visible;
      assert visible[i] in multiset(sorted);
    }
  }

  /**
   * The visible tables are in ascending name order, and each section is
   * already trimmed, so that trimming again changes nothing.
   */
  lemma VisibleTablesOrdered(tables: seq<TableSettings>, userRoles: seq<string>)
    ensures var r := VisibleTables(tables, userRoles);
      && (forall i, j :: 0 <= i < j < |r| ==> LessEq(r[i].name, r[j].name))
      && (forall t' :: t' in r ==> t'.section.Some? && Trim(t'.section.value) == t'.section.value)
  {
    LessEqIsTotalPreorder();
    var sorted := SortBy(tables, NameOf, LessEq);
    var visible := VisibleFrom(sorted, userRoles);
    var r := VisibleTables(tables, userRoles);
    assert r == NormaliseAll(visible);
    FilterKeepsSorted(sorted, Viewer(userRoles), NameOf, LessEq);
    forall i, j | 0 <= i < j < |r| ensures LessEq(r[i].name, r[j].name) {
      assert r[i].name == NameOf(visible[i]) && r[j].name == NameOf(visible[j]);
    }
    forall t' | t' in r ensures t'.section.Some? && Trim(t'.section.value) == t'.section.value {
      var i :| 0 <= i < |r| && r[i] == t';
      var sec := visible[i].section;
      if sec.Some? && sec.value != "" {
        TrimIdempotent(sec.value);
      } else {
        OtherIsTrimmed();
      }
    }
  }

  lemma OtherIsTrimmed()
    ensures Trim(OtherSection) == OtherSection
  {
    assert OtherSection[0] == 'O' && OtherSection[|OtherSection| - 1] == 'R';
    TrimUnpadded(OtherSection);
  }

  /** `groupBy(filteredTables, "section")`: one section per name, in the order the names first occur. */
  function Sections(visible: seq<TableSettings>): (r: Record<seq<TableSettings>>)
    ensures Distinct(r)
    ensures KeysOf(r) == Dedup(KeysAlong(visible, SectionOf))
    ensures forall s :: Lookup(r, s) == if HasKey(visible, SectionOf, s) then Some(Members(visible, SectionOf, s)) else None
  {
    GroupBy(visible, SectionOf)
  }

  /** Every member of a section is a visible table, listed under its own normalised section. */
  lemma {:induction false} SectionMembers(visible: seq<TableSettings>, s: string)
    ensures forall t :: t in Members(visible, SectionOf, s) <==> t in visible && SectionOf(t) == s
  {
    if visible != [] {
      SectionMembers(visible[1..], s);
      assert visible == [visible[0]] + visible[1..];
    }
  }

  /** The tables' roles, concatenated: `tables.reduce((a, c) => [...a, ...c.roles], [])`. */
  function AllRoles(tables: seq<TableSettings>): (rs: seq<string>)
    ensures forall r :: r in rs <==> exists t :: t in tables && r in t.roles
  {
    if tables == [] then []
    else
      var rest := AllRoles(tables[..|tables| - 1]);
      var last := tables[|tables| - 1];
      assert tables == tables[..|tables| - 1] + [last];
      rest + last.roles
  }

  /** `roles`: every role of some table, each once; `[]` while the tables are unset. */
  function Roles(tables: Option<seq<TableSettings>>): (rs: seq<string>)
    ensures tables.None? ==> rs == []
    ensures tables.Some? ==> forall r :: r in rs <==> exists t :: t in tables.value && r in t.roles
    ensures forall i, j :: 0 <= i < j < |rs| ==> rs[i] != rs[j]
  {
    if tables.None? then [] else Dedup(AllRoles(tables.value))
  }

  /**
   * The context's `tables` and `sections` state, derived from the project
   * settings and the user's roles once both are known, and only while the
   * sections are unset.
   */
  class TableDirectory {
    var tables: Option<seq<TableSettings>>
    var sections: Option<Record<seq<TableSettings>>>

    constructor ()
      ensures tables.None? && sections.None?
    {
      tables := None;
      sections := None;
    }

    method Derive(settingsTables: Option<seq<TableSettings>>, userRoles: Option<seq<string>>)
      modifies this
      ensures settingsTables.Some? && userRoles.Some? && old(sections).None? ==>
        && tables == Some(VisibleTables(settingsTables.value, userRoles.value))
        && sections == Some(Sections(tables.value))
      ensures !(settingsTables.Some? && userRoles.Some? && old(sections).None?) ==>
        tables == old(tables) && sections == old(sections)
    {
      if settingsTables.Some? && userRoles.Some? && sections.None? {
        var filtered := VisibleTables(settingsTables.value, userRoles.value);
        sections := Some(Sections(filtered));
        tables := Some(filtered);
      }
    }
  }

  // ---------------------------------------------------------------------
  // Cell updates
  // ---------------------------------------------------------------------

  /**
   * The signed-in user, with the fields the stamp copies and two it does not.
   * The Firebase v8 user holds `null` for a missing name, e-mail, photo or
   * phone number; `None` stands for that `null`.
   */
  datatype User = User(
    displayName: Option<string>,
    email: Option<string>,
    uid: string,
    emailVerified: bool,
    isAnonymous: bool,
    photoURL: Option<string>,
    phoneNumber: Option<string>,
    providerId: string)

  /** `rowyUser(currentUser)`: the six copied fields and the time of the stamp. */
  datatype UserStamp = UserStamp(
    timestamp: int,
    displayName: Option<string>,
    email: Option<string>,
    uid: string,
    emailVerified: bool,
    isAnonymous: bool,
    photoURL: Option<string>)

  /** `rowyUser(u)`, with `new Date()` given as `now` in milliseconds. */
  function RowyUser(u: User, now: int): (stamp: UserStamp)
    ensures stamp.timestamp == now
    ensures stamp.displayName == u.displayName && stamp.email == u.email && stamp.uid == u.uid
    ensures stamp.emailVerified == u.emailVerified && stamp.isAnonymous == u.isAnonymous && stamp.photoURL == u.photoURL
  {
    UserStamp(now, u.displayName, u.email, u.uid, u.emailVerified, u.isAnonymous, u.photoURL)
  }

  /** Two users get the same stamp exactly when they agree on the six copied fields. */
  lemma RowyUserCopiesExactly(u: User, v: User, now: int)
    ensures RowyUser(u, now) == RowyUser(v, now) <==>
      && u.displayName == v.displayName && u.email == v.email && u.uid == v.uid
      && u.emailVerified == v.emailVerified && u.isAnonymous == v.isAnonymous && u.photoURL == v.photoURL
  {
  }

  /** A field the signed-in user holds as `string | null`: `None` is `null`. */
  function NullableString(s: Option<string>): (v: Value)
    ensures s.None? <==> v == Null
    ensures s.Some? ==> v == Str(s.value)
  {
    if s.Some? then Str(s.value) else Null
  }

  /**
   * The stamp as the object stored in `_updatedBy`: exactly the time and the
   * six copied fields, each as the user object holds it.
   */
  function StampValue(stamp: UserStamp): (v: Value)
    ensures v.Obj?
    ensures v.fields.Keys == {"timestamp", "displayName", "email", "uid", "emailVerified", "isAnonymous", "photoURL"}
    ensures v.fields["timestamp"] == Date(stamp.timestamp)
    ensures v.fields["displayName"] == NullableString(stamp.displayName)
    ensures v.fields["email"] == NullableString(stamp.email)
    ensures v.fields["uid"] == Str(stamp.uid)
    ensures v.fields["emailVerified"] == Bool(stamp.emailVerified)
    ensures v.fields["isAnonymous"] == Bool(stamp.isAnonymous)
    ensures v.fields["photoURL"] == NullableString(stamp.photoURL)
    ensures forall k :: k in v.fields ==> !v.fields[k].Undefined?
  {
    Obj(map[
      "timestamp" := Date(stamp.timestamp),
      "displayName" := NullableString(stamp.displayName),
      "email" := NullableString(stamp.email),
      "uid" := Str(stamp.uid),
      "emailVerified" := Bool(stamp.emailVerified),
      "isAnonymous" := Bool(stamp.isAnonymous),
      "photoURL" := NullableString(stamp.photoURL)])
  }

  /** The stored object determines the stamp: two stamps are stored alike exactly when they are equal. */
  lemma StampValueInjective(a: UserStamp, b: UserStamp)
    ensures StampValue(a) == StampValue(b) <==> a == b
  {
    if StampValue(a) == StampValue(b) {
      var fa, fb := StampValue(a).fields, StampValue(b).fields;
      assert fa["timestamp"] == fb["timestamp"] && fa["uid"] == fb["uid"];
      assert fa["emailVerified"] == fb["emailVerified"] && fa["isAnonymous"] == fb["isAnonymous"];
      assert fa["displayName"] == fb["displayName"] && fa["email"] == fb["email"] && fa["photoURL"] == fb["photoURL"];
    }
  }

  const UpdatedAtField := "_updatedAt"
  const UpdatedByField := "_updatedBy"

  /** A row write: the document and the fields to update. */
  datatype RowWrite = RowWrite(ref: string, update: Fields)

  /**
   * `updateCell`: no write for an undefined value; otherwise one write to
   * `ref` setting the field, `_updatedBy` to the user's stamp and
   * `_updatedAt` to the stamp's own time.
   */
  function UpdateCell(ref: string, fieldName: string, value: Value, user: User, now: int): (w: Option<RowWrite>)
    ensures w.None? <==> value.Undefined?
    ensures w.Some? ==>
      && w.value.ref == ref
      && w.value.update.Keys == {fieldName, UpdatedAtField, UpdatedByField}
      && w.value.update[UpdatedByField] == StampValue(RowyUser(user, now))
      && w.value.update[UpdatedAtField] == w.value.update[UpdatedByField].fields["timestamp"]
      && (fieldName != UpdatedAtField && fieldName != UpdatedByField ==> w.value.update[fieldName] == value)
  {
    if value.Undefined? then None
    else
      var stamp := RowyUser(user, now);
      Some(RowWrite(ref, map[fieldName := value][UpdatedAtField := Date(stamp.timestamp)][UpdatedByField := StampValue(stamp)]))
  }

  /** A cell write stamps `_updatedBy` with the user's own six fields and the write's time. */
  lemma UpdatedByHoldsUser(ref: string, fieldName: string, value: Value, user: User, now: int)
    requires !value.Undefined?
    ensures var u := UpdateCell(ref, fieldName, value, user, now).value.update[UpdatedByField];
      && u.Obj?
      && u.fields.Keys == {"timestamp", "displayName", "email", "uid", "emailVerified", "isAnonymous", "photoURL"}
      && u.fields["timestamp"] == Date(now)
      && u.fields["displayName"] == NullableString(user.displayName)
      && u.fields["email"] == NullableString(user.email)
      && u.fields["uid"] == Str(user.uid)
      && u.fields["emailVerified"] == Bool(user.emailVerified)
      && u.fields["isAnonymous"] == Bool(user.isAnonymous)
      && u.fields["photoURL"] == NullableString(user.photoURL)
  {
    var stamp := RowyUser(user, now);
    assert UpdateCell(ref, fieldName, value, user, now).value.update[UpdatedByField] == StampValue(stamp);
  }


  /** The arguments `onSuccess` is called with. */
  datatype SuccessCall = SuccessCall(ref: string, fieldName: string, value: Value)

  /**
   * The write's success handler: the caller's `onSuccess`, when it passed
   * one, is called once with the cell's reference, field name and value.
   */
  function OnWriteSuccess(ref: string, fieldName: string, value: Value, hasOnSuccess: bool): (calls: seq<SuccessCall>)
    ensures |calls| <= 1
    ensures calls != [] <==> hasOnSuccess
    ensures forall c :: c in calls ==> c.ref == ref && c.fieldName == fieldName && c.value == value
  {
    if hasOnSuccess then [SuccessCall(ref, fieldName, value)] else []
  }

  /** `onSuccess` reports the document and the value that the write stored in the field. */
  lemma SuccessReportsWrite(ref: string, fieldName: string, value: Value, user: User, now: int, c: SuccessCall)
    requires UpdateCell(ref, fieldName, value, user, now).Some?
    requires fieldName != UpdatedAtField && fieldName != UpdatedByField
    requires c in OnWriteSuccess(ref, fieldName, value, true)
    ensures var w := UpdateCell(ref, fieldName, value, user, now).value;
      c.ref == w.ref && c.fieldName in w.update && c.value == w.update[c.fieldName]
  {
  }

  datatype Variant = Error

  /** A snackbar notification, centred at the top of the screen. */
  datatype Notification = Notification(message: string, variant: Variant, duration: int)

  const PermissionDenied := "permission-denied"
  const PermissionMessage := "You don't have permissions to make this change"

  /**
   * The write's error handler: a permission error shows one two-second
   * error notification; any other error is ignored.
   */
  function OnWriteError(code: string): (ns: seq<Notification>)
    ensures |ns| <= 1
    ensures ns != [] <==> code == PermissionDenied
    ensures forall n :: n in ns ==> n.variant == Error && n.duration == 2000 && n.message == PermissionMessage
  {
    if code == PermissionDenied then [Notification(PermissionMessage, Error, 2000)] else []
  }
}
