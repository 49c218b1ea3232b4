/** The drug collection: the record type with its five required fields, and a store whose
    save, bulk insert, update by id and delete by id keep drug codes unique. */
module DrugModel {
  import opened Common

  /** A stored drug; `id` stands for the document's `_id`, allocated in increasing order. */
  datatype Drug = Drug(id: nat, code: string, genericName: string, brandName: string, company: string, launchDate: int)

  /** A document before validation: every field may be missing. */
  datatype DrugInput = DrugInput(
    code: Option<string>, genericName: Option<string>, brandName: Option<string>,
    company: Option<string>, launchDate: Option<int>)

  datatype Field = CodeField | GenericNameField | BrandNameField | CompanyField | LaunchDateField

  datatype StoreError = ValidationFailed(missing: seq<Field>) | DuplicateCode

  /** A `required` string is satisfied only by a non-empty string. */
  predicate PresentText(s: Option<string>) { s.Some? && s.value != "" }

  predicate Present(d: DrugInput, f: Field) {
    match f
    case CodeField => PresentText(d.code)
    case GenericNameField => PresentText(d.genericName)
    case BrandNameField => PresentText(d.brandName)
    case CompanyField => PresentText(d.company)
    case LaunchDateField => d.launchDate.Some?
  }

  predicate Complete(d: DrugInput) {
    PresentText(d.code) && PresentText(d.genericName) && PresentText(d.brandName)
    && PresentText(d.company) && d.launchDate.Some?
  }

  /** The schema's fields, in declaration order. */
  const SchemaFields := [CodeField, GenericNameField, BrandNameField, CompanyField, LaunchDateField]

  /** No field occurs twice. */
  predicate NoRepeats(fs: seq<Field>) {
    forall i, j :: 0 <= i < j < |fs| ==> fs[i] != fs[j]
  }

  /** The fields of `fs` that `d` lacks, in the order of `fs`; no field twice when `fs` has none twice. */
  function MissingAmong(d: DrugInput, fs: seq<Field>): (m: seq<Field>)
    ensures forall f :: f in m <==> f in fs && !Present(d, f)
    ensures NoRepeats(fs) ==> NoRepeats(m)
  {
    if fs == [] then []
    else
      var rest := MissingAmong(d, fs[1..]);
      assert NoRepeats(fs) ==> NoRepeats(fs[1..]) && fs[0] !in fs[1..];
      (if Present(d, fs[0]) then [] else [fs[0]]) + rest
  }

  /** The schema's required-field validation: the missing fields, in schema order. */
  function MissingFields(d: DrugInput): (m: seq<Field>)
    ensures forall f :: f in m <==> !Present(d, f)
    ensures m == [] <==> Complete(d)
    ensures NoRepeats(m)
  {
    var m := MissingAmong(d, SchemaFields);
    SchemaFieldsAll();
    CompleteAllPresent(d);
    assert m != [] ==> !Present(d, m[0]);
    m
  }

  /** The schema lists every field, each once. */
  lemma SchemaFieldsAll()
    ensures forall f: Field :: f in SchemaFields
    ensures NoRepeats(SchemaFields)
  {
    forall f: Field ensures f in SchemaFields {
      match f
      case CodeField => assert SchemaFields[0] == f;
      case GenericNameField => assert SchemaFields[1] == f;
      case BrandNameField => assert SchemaFields[2] == f;
      case CompanyField => assert SchemaFields[3] == f;
      case LaunchDateField => assert SchemaFields[4] == f;
    }
  }

  /** A document is complete exactly when every field is present. */
  lemma CompleteAllPresent(d: DrugInput)
    ensures Complete(d) <==> forall f :: Present(d, f)
  {
    if forall f :: Present(d, f) {
      assert Present(d, CodeField) && Present(d, GenericNameField) && Present(d, BrandNameField);
      assert Present(d, CompanyField) && Present(d, LaunchDateField);
    }
  }

  /** The document a complete input becomes under the given id. */
  function Materialize(d: DrugInput, id: nat): (r: Drug)
    requires Complete(d)
  {
    Drug(id, d.code.value, d.genericName.value, d.brandName.value, d.company.value, d.launchDate.value)
  }

  /** The documents a batch of complete inputs becomes, with consecutive ids from `id0`. */
  function Batch(ds: seq<DrugInput>, id0: nat): (r: seq<Drug>)
    requires forall i :: 0 <= i < |ds| ==> Complete(ds[i])
    ensures |r| == |ds|
  {
    seq(|ds|, i requires 0 <= i < |ds| => Materialize(ds[i], id0 + i))
  }

  predicate CodeInUse(s: seq<Drug>, code: string) {
    exists i :: 0 <= i < |s| && s[i].code == code
  }

  predicate UniqueCodes(s: seq<Drug>) {
    forall i, j :: 0 <= i < j < |s| ==> s[i].code != s[j].code
  }

  predicate DistinctIds(s: seq<Drug>) {
    forall i, j :: 0 <= i < j < |s| ==> s[i].id != s[j].id
  }

  predicate IdsAscending(s: seq<Drug>) {
    forall i, j :: 0 <= i < j < |s| ==> s[i].id < s[j].id
  }

  /** Position of the record with this id, if any. */
  function IndexOfId(s: seq<Drug>, id: nat): (k: Option<nat>)
    ensures k.Some? ==> k.value < |s| && s[k.value].id == id
    ensures k.None? <==> forall i :: 0 <= i < |s| ==> s[i].id != id
  {
    if s == [] then None
    else if s[|s| - 1].id == id then Some(|s| - 1)
    else IndexOfId(s[..|s| - 1], id)
  }

  /** A single-field change as `findByIdAndUpdate` receives it. */
  datatype FieldUpdate =
    | SetCode(code: string)
    | SetGenericName(genericName: string)
    | SetBrandName(brandName: string)
    | SetCompany(company: string)
    | SetLaunchDate(launchDate: int)

  /** The record after the update: the named field takes the new value, every other field is kept. */
  function Apply(d: Drug, u: FieldUpdate): (r: Drug)
    ensures r.id == d.id
    ensures r.code == (if u.SetCode? then u.code else d.code)
    ensures r.genericName == (if u.SetGenericName? then u.genericName else d.genericName)
    ensures r.brandName == (if u.SetBrandName? then u.brandName else d.brandName)
    ensures r.company == (if u.SetCompany? then u.company else d.company)
    ensures r.launchDate == (if u.SetLaunchDate? then u.launchDate else d.launchDate)
  {
    match u
    case SetCode(c) => d.(code := c)
    case SetGenericName(g) => d.(genericName := g)
    case SetBrandName(b) => d.(brandName := b)
    case SetCompany(c) => d.(company := c)
    case SetLaunchDate(t) => d.(launchDate := t)
  }

  /** Another record than the one at `k` already carries `code`. */
  predicate CodeTakenByOther(s: seq<Drug>, k: nat, code: string) {
    exists j :: 0 <= j < |s| && j != k && s[j].code == code
  }

  lemma RemovePreserves(s: seq<Drug>, k: nat, bound: nat)
    requires k < |s| && UniqueCodes(s) && IdsAscending(s)
    requires forall i :: 0 <= i < |s| ==> s[i].id < bound
    ensures var r := s[..k] + s[k + 1..];
      UniqueCodes(r) && IdsAscending(r) && (forall i :: 0 <= i < |r| ==> r[i].id < bound)
      && forall i :: 0 <= i < |r| ==> r[i].id != s[k].id
  {
    var r := s[..k] + s[k + 1..];
    assert forall i :: 0 <= i < |r| ==> r[i] == (if i < k then s[i] else s[i + 1]);
  }

  /** The collection: its documents in insertion order and the next `_id` to hand out. */
  class DrugStore {
    var records: seq<Drug>
    var nextId: nat

    /** Codes are unique and ids grow with insertion order, all below `nextId`. */
    ghost predicate Valid()
      reads this
    {
      UniqueCodes(records) && IdsAscending(records)
      && forall i :: 0 <= i < |records| ==> records[i].id < nextId
    }

    constructor()
      ensures Valid() && records == [] && nextId == 0
    {
      records := [];
      nextId := 0;
    }

    /** `findById`. */
    function FindById(id: nat): (r: Option<Drug>)
      reads this
      ensures r.Some? <==> exists i :: 0 <= i < |records| && records[i].id == id
      ensures r.Some? ==> r.value in records && r.value.id == id
    {
      var k := IndexOfId(records, id);
      if k.Some? then Some(records[k.value]) else None
    }

    /** `new Drug(d).save()`: required-field validation first, then the unique index on `code`;
        a failure leaves the collection as it was. */
    method Save(d: DrugInput) returns (r: Result<Drug, StoreError>)
      requires Valid()
      modifies this
      ensures Valid()
      ensures r.Ok? <==> Complete(d) && !CodeInUse(old(records), d.code.value)
      ensures !Complete(d) ==> r == Err(ValidationFailed(MissingFields(d)))
      ensures Complete(d) && CodeInUse(old(records), d.code.value) ==> r == Err(DuplicateCode)
      ensures r.Err? ==> records == old(records) && nextId == old(nextId)
      ensures r.Ok? ==>
        r.value == Materialize(d, old(nextId)) && records == old(records) + [r.value] && nextId == old(nextId) + 1
    {
      var missing := MissingFields(d);
      if missing != [] {
        return Err(ValidationFailed(missing));
      }
      if CodeInUse(records, d.code.value) {
        return Err(DuplicateCode);
      }
      var doc := Materialize(d, nextId);
      records := records + [doc];
      nextId := nextId + 1;
      return Ok(doc);
    }

    /** `insertMany(ds)` (ordered): every document is validated before any is written; then they
        are written in order and writing stops at the first duplicate code, keeping the earlier ones.
        Returns the number written. */
    method InsertMany(ds: seq<DrugInput>) returns (r: Result<nat, StoreError>)
      requires Valid()
      modifies this
      ensures Valid()
      ensures (exists k :: 0 <= k < |ds| && !Complete(ds[k])) ==>
        r.Err? && r.error.ValidationFailed? && records == old(records) && nextId == old(nextId)
      ensures (exists k :: 0 <= k < |ds| && !Complete(ds[k])) ==>
        exists k :: 0 <= k < |ds| && !Complete(ds[k]) && (forall j :: 0 <= j < k ==> Complete(ds[j]))
                    && r == Err(ValidationFailed(MissingFields(ds[k])))
      ensures (forall k :: 0 <= k < |ds| ==> Complete(ds[k])) && r.Err? ==> r == Err(DuplicateCode)
      ensures (forall k :: 0 <= k < |ds| ==> Complete(ds[k])) ==>
        (r.Ok? <==> UniqueCodes(old(records) + Batch(ds, old(nextId))))
      ensures r.Ok? ==> r.value == |ds| && records == old(records) + Batch(ds, old(nextId))
      ensures r == Err(DuplicateCode) ==>
        exists k :: 0 <= k < |ds| && records == old(records) + Batch(ds[..k], old(nextId))
                    && CodeInUse(records, ds[k].code.value)
    {
      var k := 0;
      while k < |ds|
        invariant 0 <= k <= |ds|
        invariant forall i :: 0 <= i < k ==> Complete(ds[i])
      {
        if !Complete(ds[k]) {
          r := Err(ValidationFailed(MissingFields(ds[k])));
          assert !Complete(ds[k]) && (forall j :: 0 <= j < k ==> Complete(ds[j]));
          return;
        }
        k := k + 1;
      }
      ghost var start := records;
      ghost var id0 := nextId;
      var i := 0;
      while i < |ds|
        invariant 0 <= i <= |ds|
        invariant Valid()
        invariant records == start + Batch(ds[..i], id0)
        invariant nextId == id0 + i
      {
        var s := Save(ds[i]);
        if s.Err? {
          assert CodeInUse(records, ds[i].code.value);
          NotUniqueExtended(start, ds, id0, i);
          return Err(DuplicateCode);
        }
        assert Batch(ds[..i + 1], id0) == Batch(ds[..i], id0) + [s.value];
        i := i + 1;
      }
      assert ds[..|ds|] == ds;
      return Ok(|ds|);
    }

    /** `findByIdAndUpdate(id, u)`: `Ok(None)` when no record has the id; otherwise the record
        as it was before, or a duplicate-code failure when another record already has the new code.
        Update validators do not run, so the required-field rules are not re-checked. */
    method Update(id: nat, u: FieldUpdate) returns (r: Result<Option<Drug>, StoreError>)
      requires Valid()
      modifies this
      ensures Valid() && nextId == old(nextId)
      ensures old(IndexOfId(records, id)).None? ==> r == Ok(None) && records == old(records)
      ensures old(IndexOfId(records, id)).Some? ==>
        var k := old(IndexOfId(records, id)).value;
        if u.SetCode? && CodeTakenByOther(old(records), k, u.code) then
          r == Err(DuplicateCode) && records == old(records)
        else
          r == Ok(Some(old(records)[k])) && records == old(records)[k := Apply(old(records)[k], u)]
    {
      var found := IndexOfId(records, id);
      if found.None? {
        return Ok(None);
      }
      var k := found.value;
      if u.SetCode? && CodeTakenByOther(records, k, u.code) {
        return Err(DuplicateCode);
      }
      var before := records[k];
      records := records[k := Apply(before, u)];
      return Ok(Some(before));
    }

    /** `findByIdAndDelete(id)`: the removed record, after which no record has the id. */
    method Delete(id: nat) returns (r: Option<Drug>)
      requires Valid()
      modifies this
      ensures Valid() && nextId == old(nextId)
      ensures r == old(FindById(id))
      ensures FindById(id).None?
      ensures r.None? ==> records == old(records)
      ensures r.Some? ==> var k := old(IndexOfId(records, id)).value;
        records == old(records)[..k] + old(records)[k + 1..]
    {
      var found := IndexOfId(records, id);
      if found.None? {
        return None;
      }
      var k := found.value;
      r := Some(records[k]);
      RemovePreserves(records, k, nextId);
      records := records[..k] + records[k + 1..];
    }
  }

  /** The records of a valid store have distinct ids, as the listing over a snapshot of it requires. */
  lemma StoreIdsDistinct(store: DrugStore)
    requires store.Valid()
    ensures DistinctIds(store.records)
  {
  }

  /** A duplicate met while writing record `i` of a batch also makes the whole batch non-unique. */
  lemma NotUniqueExtended(start: seq<Drug>, ds: seq<DrugInput>, id0: nat, i: nat)
    requires i < |ds| && (forall k :: 0 <= k < |ds| ==> Complete(ds[k])) && Complete(ds[i])
    requires CodeInUse(start + Batch(ds[..i], id0), ds[i].code.value)
    ensures !UniqueCodes(start + Batch(ds, id0))
  {
    var pre := start + Batch(ds[..i], id0);
    var all := start + Batch(ds, id0);
    var j :| 0 <= j < |pre| && pre[j].code == ds[i].code.value;
    assert all[j] == pre[j];
    assert all[|start| + i].code == ds[i].code.value;
  }
}
