/**
 The gadget routes: list, create, PATCH, DELETE and self-destruct, each a
 pure function from a request and the stored gadgets to a response and the
 stored gadgets afterwards. The storage client is a sequence of records in
 the order `findMany` returns them; `update` finds one record by a unique
 key and fails with RecordNotFound when there is none.
 */
module Gadgets {
  import opened Runtime
  import opened Numbers
  import opened Utils

  datatype Status = Available | Deployed | Destroyed | Decommissioned

  function StatusName(s: Status): string {
    match s
    case Available => "Available"
    case Deployed => "Deployed"
    case Destroyed => "Destroyed"
    case Decommissioned => "Decommissioned"
  }

  /** `v == w` in JavaScript when w is a word that is not a numeric literal:
      `null`, `undefined` and every number compare unequal to it, so only the
      identical string matches. */
  predicate LooseEqualsWord(v: JsValue, w: string) {
    v == Str(w)
  }

  /** The enumeration check of the PATCH handler, returning the member that
      matched; anything else, JSON `null` included, is rejected. */
  function ParseStatus(v: JsValue): Option<Status> {
    if LooseEqualsWord(v, "Available") then Some(Available)
    else if LooseEqualsWord(v, "Deployed") then Some(Deployed)
    else if LooseEqualsWord(v, "Destroyed") then Some(Destroyed)
    else if LooseEqualsWord(v, "Decommissioned") then Some(Decommissioned)
    else None
  }

  /** The check accepts exactly the four status names, each as itself. */
  lemma ParseStatusExact(v: JsValue, s: Status)
    ensures ParseStatus(v) == Some(s) <==> v == Str(StatusName(s))
  {
  }

  lemma ParseStatusRejectsNullish(v: JsValue)
    requires IsNullish(v) || v.Num?
    ensures ParseStatus(v).None?
  {
  }

  /** A stored gadget. `timestamp` is null until a DELETE or self-destruct
      stamps it. */
  datatype Gadget = Gadget(id: string, name: string, success: int, status: Status, timestamp: Option<int>)

  type Store = seq<Gadget>

  /** The storage schema's unique constraints on `id` and `name`. */
  predicate UniqueKeys(st: Store) {
    forall i, j :: 0 <= i < j < |st| ==> st[i].id != st[j].id && st[i].name != st[j].name
  }

  /** Every stored success probability lies in [0, 100]. */
  predicate SuccessInRange(st: Store) {
    forall i :: 0 <= i < |st| ==> 0 <= st[i].success <= 100
  }

  /** The unique key in an `update`'s `where` clause. */
  datatype Where = ByName(name: string) | ById(id: string)

  predicate Selects(w: Where, g: Gadget) {
    match w
    case ByName(n) => g.name == n
    case ById(i) => g.id == i
  }

  /** The position of the first record the key selects. */
  function Find(st: Store, w: Where): (r: Option<nat>)
    ensures r.Some? ==> r.value < |st| && Selects(w, st[r.value])
    ensures r.Some? ==> forall j :: 0 <= j < r.value ==> !Selects(w, st[j])
    ensures r.None? ==> forall j :: 0 <= j < |st| ==> !Selects(w, st[j])
  {
    if |st| == 0 then None
    else if Selects(w, st[0]) then Some(0)
    else match Find(st[1..], w)
      case None => None
      case Some(i) => Some(i + 1)
  }

  /** The `data` of an update: the fields it writes; a None field is left as it is. */
  datatype Change = Change(status: Option<Status>, success: Option<int>, timestamp: Option<int>)

  function Apply(g: Gadget, c: Change): (r: Gadget)
    ensures r.id == g.id && r.name == g.name
    ensures r.status == (if c.status.Some? then c.status.value else g.status)
    ensures r.success == (if c.success.Some? then c.success.value else g.success)
    ensures r.timestamp == (if c.timestamp.Some? then c.timestamp else g.timestamp)
  {
    var g1 := if c.status.Some? then g.(status := c.status.value) else g;
    var g2 := if c.success.Some? then g1.(success := c.success.value) else g1;
    if c.timestamp.Some? then g2.(timestamp := c.timestamp) else g2
  }

  /** What a storage call returns: the written record and the new store, or
      the error it throws. */
  datatype Written = Written(record: Gadget, store: Store) | Rejected(error: StorageError)

  /** `prisma.gadget.update({where, data})`. */
  function Update(st: Store, w: Where, c: Change): (r: Written)
    ensures r.Rejected? <==> forall j :: 0 <= j < |st| ==> !Selects(w, st[j])
    ensures r.Rejected? ==> r.error == RecordNotFound
    ensures r.Written? ==> exists i :: 0 <= i < |st| && Selects(w, st[i]) && r.store == st[i := Apply(st[i], c)] && r.record == r.store[i]
  {
    match Find(st, w)
    case None => Rejected(RecordNotFound)
    case Some(i) =>
      var st' := st[i := Apply(st[i], c)];
      Written(st'[i], st')
  }

  /** `prisma.gadget.create({data})`: appended unless it clashes with a
      stored `id` or `name`. */
  function Insert(st: Store, g: Gadget): (r: Written)
    ensures r.Written? <==> forall j :: 0 <= j < |st| ==> st[j].id != g.id && st[j].name != g.name
    ensures r.Written? ==> r.store == st + [g] && r.record == g
    ensures r.Rejected? ==> r.error == UniqueViolation
  {
    if exists j :: 0 <= j < |st| && (st[j].id == g.id || st[j].name == g.name) then Rejected(UniqueViolation)
    else Written(g, st + [g])
  }

  /** An update whose `where` value came from the request body: a value that
      is not a string is rejected by the storage client's validation. */
  function UpdateWhereName(st: Store, name: JsValue, c: Change): (r: Written)
    ensures !name.Str? ==> r == Rejected(InvalidArgument)
    ensures name.Str? ==> r == Update(st, ByName(name.s), c)
  {
    if name.Str? then Update(st, ByName(name.s), c) else Rejected(InvalidArgument)
  }

  /** One entry of the listing. */
  datatype Entry = Entry(id: string, gadget: string)

  /** A response body of the gadget routes. */
  datatype Body =
    | Failure(message: string)           // {success: false, message: "..."}
    | FailureCause(cause: StorageError)  // {success: false, message: err}
    | Record(gadget: Gadget)             // {success: true, message: gadget}
    | Listing(data: seq<Entry>)          // {success: true, data: [...]}

  datatype Handled = Handled(response: Response<Body>, store: Store)

  const NameRequired := "name field is required"
  const FieldRequired := "either success or status must be defined"
  const StatusEnum := "Status is an enum(Available, Deployed, Destroyed, Decommissioned)"
  const SuccessRange := "success must be a number between 0-100"
  const DeleteNameRequired := "name required in request body"
  const CodeRequired := "confirmationCode field is mandatory"

  // ---------------------------------------------------------------- GET /gadgets

  /** The closing part of a display string: `. Status <status>`. */
  function StatusLine(s: Status): string {
    ". Status " + StatusName(s)
  }

  /** The display string of one gadget:
      `<name> <success>% success probability. Status <status>`. */
  function Render(g: Gadget): string {
    (g.name + " " + NumberToString(g.success) + "% success probability") + StatusLine(g.status)
  }

  predicate EndsWith(text: string, suffix: string) {
    |suffix| <= |text| && text[|text| - |suffix|..] == suffix
  }

  /** Reads the status back from a display string. */
  function StatusOfRendered(text: string): Option<Status> {
    if EndsWith(text, StatusLine(Available)) then Some(Available)
    else if EndsWith(text, StatusLine(Deployed)) then Some(Deployed)
    else if EndsWith(text, StatusLine(Destroyed)) then Some(Destroyed)
    else if EndsWith(text, StatusLine(Decommissioned)) then Some(Decommissioned)
    else None
  }

  lemma EndsWithAppend(a: string, b: string)
    ensures EndsWith(a + b, b)
  {
    assert (a + b)[|a + b| - |b|..] == b;
  }

  /** Two suffixes of one text: the shorter is a suffix of the longer. */
  lemma SuffixesNest(text: string, b: string, c: string)
    requires EndsWith(text, b) && EndsWith(text, c) && |b| <= |c|
    ensures EndsWith(c, b)
  {
    assert c[|c| - |b|..] == text[|text| - |b|..];
  }

  /** One mismatching character, counted from the end, rules a suffix out. */
  lemma MismatchFromEnd(a: string, b: string, k: nat)
    requires k < |b| <= |a| && a[|a| - 1 - k] != b[|b| - 1 - k]
    ensures !EndsWith(a, b)
  {
  }

  /** No status line is a suffix of another one. */
  lemma StatusLinesDistinct(s: Status, t: Status)
    requires s != t
    ensures !EndsWith(StatusLine(s), StatusLine(t))
  {
    var a, b := StatusLine(s), StatusLine(t);
    if |b| <= |a| {
      if a[|a| - 1] != b[|b| - 1] {
        MismatchFromEnd(a, b, 0);
      } else if s == Decommissioned {
        MismatchFromEnd(a, b, 2);
      } else {
        assert s == Destroyed && t == Deployed;
        MismatchFromEnd(a, b, 16);
      }
    }
  }

  /** A text ending with one status line ends with no other. */
  lemma OnlyOneStatusLine(text: string, s: Status, t: Status)
    requires EndsWith(text, StatusLine(s)) && s != t
    ensures !EndsWith(text, StatusLine(t))
  {
    StatusLinesDistinct(s, t);
    StatusLinesDistinct(t, s);
    if EndsWith(text, StatusLine(t)) {
      if |StatusLine(s)| <= |StatusLine(t)| {
        SuffixesNest(text, StatusLine(s), StatusLine(t));
      } else {
        SuffixesNest(text, StatusLine(t), StatusLine(s));
      }
    }
  }

  /** A display string starts with the gadget's name and ends with its status. */
  lemma RenderDecodes(g: Gadget)
    ensures Render(g)[..|g.name|] == g.name
    ensures StatusOfRendered(Render(g)) == Some(g.status)
  {
    var text := Render(g);
    var head := g.name + " " + NumberToString(g.success) + "% success probability";
    assert text[..|g.name|] == g.name;
    EndsWithAppend(head, StatusLine(g.status));
    if g.status != Available { OnlyOneStatusLine(text, g.status, Available); }
    if g.status != Deployed { OnlyOneStatusLine(text, g.status, Deployed); }
    if g.status != Destroyed { OnlyOneStatusLine(text, g.status, Destroyed); }
  }

  /** The listing entry of one gadget: its id and display string. */
  function EntryOf(g: Gadget): Entry {
    Entry(g.id, Render(g))
  }

  /** `GET /gadgets`: one entry per stored gadget, in store order, with no
      filtering by status. */
  method List(st: Store) returns (h: Handled)
    ensures h.store == st
    ensures h.response.status == 200 && h.response.body.Listing?
    ensures |h.response.body.data| == |st|
    ensures forall i :: 0 <= i < |st| ==>
      h.response.body.data[i].id == st[i].id
      && h.response.body.data[i].gadget == Render(st[i])
  {
    var entries: seq<Entry> := [];
    var k := 0;
    while k < |st|
      invariant k <= |st| && |entries| == k
      invariant forall i :: 0 <= i < k ==> entries[i] == EntryOf(st[i])
    {
      entries := entries + [EntryOf(st[k])];
      k := k + 1;
    }
    h := Handled(Response(200, Listing(entries)), st);
  }

  // ---------------------------------------------------------------- POST /gadgets

  /** `POST /gadgets` with the generator's name and success value and the
      id the storage assigns. */
  function Create(st: Store, id: string, name: string, success: int): (h: Handled)
    ensures h.response.status == 201 <==> forall j :: 0 <= j < |st| ==> st[j].id != id && st[j].name != name
    ensures h.response.status == 201 ==>
      h.store == st + [Gadget(id, name, success, Available, None)]
      && h.response.body == Record(h.store[|st|])
    ensures h.response.status != 201 ==> h.response == Response(500, FailureCause(UniqueViolation)) && h.store == st
  {
    match Insert(st, Gadget(id, name, success, Available, None))
    case Written(g, st') => Handled(Response(201, Record(g)), st')
    case Rejected(e) => Handled(Response(500, FailureCause(e)), st)
  }

  // ---------------------------------------------------------------- PATCH /gadgets

  /** The `data` object of the PATCH handler, built by its three successive
      assignments; None is `undefined`. */
  function PatchData(status: JsValue, success: JsValue): (data: Option<Change>)
    requires status.Undefined? || ParseStatus(status).Some?
    requires success.Undefined? || IsNumeric(success)
    ensures data.Some? <==> !(status.Undefined? && success.Undefined?)
    ensures data.Some? ==> data.value.timestamp.None?
    ensures data.Some? ==> data.value.status == ParseStatus(status)
    ensures data.Some? ==> data.value.success == (if success.Undefined? then None else Some(ParseInt(success)))
  {
    RejectsNullishAndEmpty();
    var d0: Option<Change> := None;
    var d1 := if !IsNullish(status) then Some(Change(ParseStatus(status), None, None)) else d0;
    var d2 := if !IsNullish(success) then Some(Change(None, Some(ParseInt(success)), None)) else d1;
    if !IsNullish(success) && !IsNullish(status) then Some(Change(ParseStatus(status), Some(ParseInt(success)), None)) else d2
  }

  /** The validations of the PATCH handler, in order; None when all pass. */
  function PatchRejection(name: JsValue, status: JsValue, success: JsValue): Option<Response<Body>> {
    if IsNullish(name) then Some(Response(422, Failure(NameRequired)))
    else if success.Undefined? && status.Undefined? then Some(Response(400, Failure(FieldRequired)))
    else if !status.Undefined? && ParseStatus(status).None? then Some(Response(400, Failure(StatusEnum)))
    else if !success.Undefined? && !IsNumeric(success) then Some(Response(400, Failure(SuccessRange)))
    else None
  }

  /** `PATCH /gadgets` with body fields `name`, `status` and `success`. */
  function Patch(st: Store, name: JsValue, status: JsValue, success: JsValue): (h: Handled)
    ensures h.response.status != 201 ==> h.store == st
  {
    match PatchRejection(name, status, success)
    case Some(r) => Handled(r, st)
    case None =>
      var data := PatchData(status, success);
      match UpdateWhereName(st, name, data.value)
      case Written(g, st') => Handled(Response(201, Record(g)), st')
      case Rejected(e) => Handled(Response(400, FailureCause(e)), st)
  }

  /** The change a PATCH that passes validation writes: exactly the supplied
      fields, `success` parsed to an integer. */
  function Supplied(status: JsValue, success: JsValue): Change
    requires ParseStatus(status).Some? || status.Undefined?
    requires IsNumeric(success) || success.Undefined?
  {
    Change(ParseStatus(status), if success.Undefined? then None else Some(ParseInt(success)), None)
  }

  lemma PatchMissingName(st: Store, name: JsValue, status: JsValue, success: JsValue)
    requires IsNullish(name)
    ensures Patch(st, name, status, success) == Handled(Response(422, Failure(NameRequired)), st)
  {
  }

  lemma PatchNoFields(st: Store, name: JsValue)
    requires !IsNullish(name)
    ensures Patch(st, name, Undefined, Undefined) == Handled(Response(400, Failure(FieldRequired)), st)
  {
  }

  /** A status outside the four names, JSON null included, is a 400. */
  lemma PatchBadStatus(st: Store, name: JsValue, status: JsValue, success: JsValue)
    requires !IsNullish(name) && !status.Undefined?
    requires forall s: Status :: status != Str(StatusName(s))
    ensures Patch(st, name, status, success) == Handled(Response(400, Failure(StatusEnum)), st)
  {
    if ParseStatus(status).Some? {
      ParseStatusExact(status, ParseStatus(status).value);
    }
  }

  /** A success value that fails isNumeric, JSON null included, is a 400. */
  lemma PatchBadSuccess(st: Store, name: JsValue, status: JsValue, success: JsValue)
    requires !IsNullish(name) && !success.Undefined? && !IsNumeric(success)
    requires status.Undefined? || ParseStatus(status).Some?
    ensures Patch(st, name, status, success) == Handled(Response(400, Failure(SuccessRange)), st)
  {
  }

  /** Past validation, the update writes exactly the supplied fields to the
      named gadget and nothing else; an unknown or non-string name is a 400
      carrying the storage error. */
  lemma PatchWritesSupplied(st: Store, name: JsValue, status: JsValue, success: JsValue)
    requires !IsNullish(name) && !(status.Undefined? && success.Undefined?)
    requires status.Undefined? || ParseStatus(status).Some?
    requires success.Undefined? || IsNumeric(success)
    ensures var h := Patch(st, name, status, success);
      match UpdateWhereName(st, name, Supplied(status, success))
      case Written(g, st') => h == Handled(Response(201, Record(g)), st')
      case Rejected(e) => h == Handled(Response(400, FailureCause(e)), st)
  {
    var d := PatchData(status, success);
    assert d.value == Supplied(status, success);
  }

  /** PATCH answers 201 exactly when the name is a stored gadget's name and
      each supplied field is valid; then that gadget alone changes. */
  lemma PatchSucceedsIff(st: Store, name: JsValue, status: JsValue, success: JsValue)
    ensures var h := Patch(st, name, status, success);
      h.response.status == 201 <==>
        && name.Str?
        && !(status.Undefined? && success.Undefined?)
        && (status.Undefined? || ParseStatus(status).Some?)
        && (success.Undefined? || IsNumeric(success))
        && exists i :: 0 <= i < |st| && st[i].name == name.s
    ensures var h := Patch(st, name, status, success);
      h.response.status == 201 ==>
        exists i :: 0 <= i < |st| && st[i].name == name.s
          && h.store == st[i := Apply(st[i], Supplied(status, success))]
          && h.response.body == Record(h.store[i])
  {
    if PatchRejection(name, status, success).None? {
      PatchWritesSupplied(st, name, status, success);
      if name.Str? {
        var w := Update(st, ByName(name.s), Supplied(status, success));
        if !(exists i :: 0 <= i < |st| && st[i].name == name.s) {
          assert w.Rejected?;
        }
      }
    }
  }

  /** The PATCH handler keeps no upper bound on `success`, although its
      rejection message says 0-100: a gadget in range is moved to 250. */
  lemma PatchExceedsRange()
    ensures var st := [Gadget("1", "g", 50, Available, None)];
      var h := Patch(st, Str("g"), Undefined, Str("250"));
      SuccessInRange(st) && h.response.status == 201 && h.store[0].success == 250 && !SuccessInRange(h.store)
  {
    var st := [Gadget("1", "g", 50, Available, None)];
    NoUpperBound();
    PatchWritesSupplied(st, Str("g"), Undefined, Str("250"));
    assert Find(st, ByName("g")) == Some(0);
  }

  /** The PATCH handler with the bound its message announces: a parsed
      `success` above 100 is rejected like a non-numeric one. */
  function PatchBounded(st: Store, name: JsValue, status: JsValue, success: JsValue): (h: Handled)
    ensures h.response.status != 201 ==> h.store == st
  {
    if PatchRejection(name, status, success).None? && !success.Undefined? && ParseInt(success) > 100
    then Handled(Response(400, Failure(SuccessRange)), st)
    else Patch(st, name, status, success)
  }

  /** The bounded handler keeps every stored success value in [0, 100] and
      differs from the original only on values above 100. */
  lemma PatchBoundedKeepsRange(st: Store, name: JsValue, status: JsValue, success: JsValue)
    requires SuccessInRange(st)
    ensures SuccessInRange(PatchBounded(st, name, status, success).store)
    ensures (success.Undefined? || !IsNumeric(success) || ParseInt(success) <= 100) ==>
      PatchBounded(st, name, status, success) == Patch(st, name, status, success)
  {
    var h := PatchBounded(st, name, status, success);
    if h.response.status == 201 {
      PatchSucceedsIff(st, name, status, success);
      var i :| 0 <= i < |st| && st[i].name == name.s
        && h.store == st[i := Apply(st[i], Supplied(status, success))];
      assert 0 <= h.store[i].success <= 100;
    }
  }

  // ---------------------------------------------------------------- DELETE /gadgets

  /** `DELETE /gadgets` at time `now`. */
  function Delete(st: Store, name: JsValue, now: int): (h: Handled)
    ensures IsNullish(name) ==> h == Handled(Response(400, Failure(DeleteNameRequired)), st)
    ensures h.response.status != 201 ==> h.store == st
    ensures h.response.status == 201 <==> name.Str? && exists i :: 0 <= i < |st| && st[i].name == name.s
    ensures h.response.status == 201 ==>
      exists i :: 0 <= i < |st| && st[i].name == name.s
        && h.store == st[i := st[i].(status := Decommissioned, timestamp := Some(now))]
        && h.response.body == Record(h.store[i])
  {
    if IsNullish(name) then Handled(Response(400, Failure(DeleteNameRequired)), st)
    else match UpdateWhereName(st, name, Change(Some(Decommissioned), None, Some(now)))
      case Written(g, st') => Handled(Response(201, Record(g)), st')
      case Rejected(e) => Handled(Response(400, FailureCause(e)), st)
  }

  /** Under unique names, a name selects exactly the one gadget that has it. */
  lemma FindByUniqueName(st: Store, i: nat)
    requires UniqueKeys(st) && i < |st|
    ensures Find(st, ByName(st[i].name)) == Some(i)
  {
  }

  /** A second DELETE of the same name leaves the store as a single DELETE
      at the later time would: status Decommissioned, newest timestamp. */
  lemma DeleteIdempotent(st: Store, name: JsValue, t1: int, t2: int)
    requires UniqueKeys(st)
    ensures Delete(Delete(st, name, t1).store, name, t2).store == Delete(st, name, t2).store
  {
    if name.Str? {
      var f := Find(st, ByName(name.s));
      if f.Some? {
        var i := f.value;
        var st1 := st[i := st[i].(status := Decommissioned, timestamp := Some(t1))];
        assert Delete(st, name, t1).store == st1;
        assert UniqueKeys(st1);
        FindByUniqueName(st1, i);
        assert Delete(st1, name, t2).store == st1[i := st1[i].(status := Decommissioned, timestamp := Some(t2))];
      }
    }
  }

  // ---------------------------------------------------------------- POST /gadgets/:id/self-destruct

  /** `POST /gadgets/:id/self-destruct` at time `now`; the confirmation code
      is only checked for presence. */
  function SelfDestruct(st: Store, id: string, confirmationCode: JsValue, now: int): (h: Handled)
    ensures IsNullish(confirmationCode) ==> h == Handled(Response(400, Failure(CodeRequired)), st)
    ensures h.response.status != 201 ==> h.store == st
    ensures h.response.status == 201 <==> !IsNullish(confirmationCode) && exists i :: 0 <= i < |st| && st[i].id == id
    ensures !IsNullish(confirmationCode) && (forall i :: 0 <= i < |st| ==> st[i].id != id) ==>
      h.response == Response(500, FailureCause(RecordNotFound))
    ensures h.response.status == 201 ==>
      exists i :: 0 <= i < |st| && st[i].id == id
        && h.store == st[i := st[i].(status := Destroyed, timestamp := Some(now))]
        && h.response.body == Record(h.store[i])
  {
    if IsNullish(confirmationCode) then Handled(Response(400, Failure(CodeRequired)), st)
    else match Update(st, ById(id), Change(Some(Destroyed), None, Some(now)))
      case Written(g, st') => Handled(Response(201, Record(g)), st')
      case Rejected(e) => Handled(Response(500, FailureCause(e)), st)
  }

  /** The value of a present confirmation code never matters. */
  lemma SelfDestructIgnoresCode(st: Store, id: string, c1: JsValue, c2: JsValue, now: int)
    requires !IsNullish(c1) && !IsNullish(c2)
    ensures SelfDestruct(st, id, c1, now) == SelfDestruct(st, id, c2, now)
  {
  }

  // ---------------------------------------------------------------- invariants

  lemma UpdateKeepsKeys(st: Store, w: Where, c: Change)
    requires UniqueKeys(st)
    ensures Update(st, w, c).Written? ==> UniqueKeys(Update(st, w, c).store)
  {
  }

  lemma CreateKeepsUniqueKeys(st: Store, id: string, gname: string, success: int)
    requires UniqueKeys(st)
    ensures UniqueKeys(Create(st, id, gname, success).store)
  {
    var c := Create(st, id, gname, success);
    if c.response.status == 201 {
      forall i, j | 0 <= i < j < |c.store|
        ensures c.store[i].id != c.store[j].id && c.store[i].name != c.store[j].name
      {
        if j == |st| {
          assert c.store[j] == Gadget(id, gname, success, Available, None);
        }
      }
    }
  }

  lemma PatchKeepsUniqueKeys(st: Store, name: JsValue, status: JsValue, value: JsValue)
    requires UniqueKeys(st)
    ensures UniqueKeys(Patch(st, name, status, value).store)
  {
    if PatchRejection(name, status, value).None? && name.Str? {
      UpdateKeepsKeys(st, ByName(name.s), Supplied(status, value));
      PatchWritesSupplied(st, name, status, value);
    }
  }

  lemma DeleteKeepsUniqueKeys(st: Store, name: JsValue, now: int)
    requires UniqueKeys(st)
    ensures UniqueKeys(Delete(st, name, now).store)
  {
    if name.Str? {
      UpdateKeepsKeys(st, ByName(name.s), Change(Some(Decommissioned), None, Some(now)));
    }
  }

  lemma SelfDestructKeepsUniqueKeys(st: Store, id: string, code: JsValue, now: int)
    requires UniqueKeys(st)
    ensures UniqueKeys(SelfDestruct(st, id, code, now).store)
  {
    UpdateKeepsKeys(st, ById(id), Change(Some(Destroyed), None, Some(now)));
  }

  /** Create, DELETE and self-destruct keep success values in [0, 100]
      when the generator's value is below 100. */
  lemma HandlersKeepSuccessInRange(st: Store, id: string, gname: string, success: int, name: JsValue, code: JsValue, now: int)
    requires SuccessInRange(st)
    requires 0 <= success < 100
    ensures SuccessInRange(Create(st, id, gname, success).store)
    ensures SuccessInRange(Delete(st, name, now).store)
    ensures SuccessInRange(SelfDestruct(st, id, code, now).store)
  {
  }
}
