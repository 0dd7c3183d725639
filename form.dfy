/**
  The form controller (controllers/form.js): create with required fields and
  a duplicate-title rule, plain patch updates, a lookup by id, and the
  options handed to pagination.
 */
module FormController {
  import opened Records
  import opened Store

  const TypeEmptyMessage := "Form Type is Empty"
  const TitleEmptyMessage := "Form Title is Empty"
  const DuplicateTitleMessage := "Form with that title already exists!!"

  /** koa-validate's `notEmpty`: an absent field or the empty string. */
  predicate Empty(s: Option<string>)
  {
    s.None? || s.value == ""
  }

  /** The errors of the two independent `checkBody` chains, type first. */
  function CreateErrors(body: FormBody): (errs: seq<(string, string)>)
    ensures errs == [] <==> !Empty(body.ftype) && !Empty(body.title)
    ensures |errs| == (if Empty(body.ftype) then 1 else 0) + (if Empty(body.title) then 1 else 0)
    ensures Empty(body.ftype) ==> errs[0] == ("type", TypeEmptyMessage)
    ensures Empty(body.title) ==> errs[|errs| - 1] == ("title", TitleEmptyMessage)
  {
    (if Empty(body.ftype) then [("type", TypeEmptyMessage)] else [])
    + (if Empty(body.title) then [("title", TitleEmptyMessage)] else [])
  }

  /** The query `{ title: t }`. */
  function TitleIs(t: string): Form -> bool { (f: Form) => f.title == t }

  /** The document `FormDal.create` stores for a validated body. */
  function NewForm(body: FormBody): (f: Form)
    requires !Empty(body.ftype) && !Empty(body.title)
    ensures f.ftype == body.ftype.value && f.title == body.title.value && f.isActive == body.isActive
    ensures body.questions.Some? ==> f.questions == body.questions.value
    ensures body.questions.None? ==> f.questions == []
  {
    Form(body.ftype.value, body.title.value, body.isActive, Pick(body.questions, []))
  }

  /** The `create` handler, as a function of the store: the new store and the response. */
  function CreateSpec(db: DB, body: FormBody): (DB, Result<(Id, Form)>)
    requires db.Valid()
  {
    var errs := CreateErrors(body);
    if errs != [] then (db, Err(FormCreationError, ErrorsJson(errs)))
    else if db.Find(db.forms, TitleIs(body.title.value)).Some? then (db, Err(FormCreationError, DuplicateTitleMessage))
    else
      var f := NewForm(body);
      var (d, id) := db.AddForm(f);
      (d, Ok((id, f)))
  }

  /**
    The `update` handler and the unrouted `updateStatus`: the patch of the one form,
    with no validation; a missing form makes the audit message read `title`
    of null.
   */
  function PatchSpec(db: DB, id: Id, body: FormBody, kind: ErrorType): (DB, Result<Form>)
  {
    var (d, f) := db.UpdateForm(id, body);
    if f.None? then (d, Err(kind, NullRead("title"))) else (d, Ok(f.value))
  }

  // ---- the controller ----

  method Create(st: Store, body: FormBody) returns (r: Result<(Id, Form)>)
    requires st.Valid()
    modifies st
    ensures st.Valid() && (st.Db(), r) == CreateSpec(old(st.Db()), body)
  {
    var errs := CreateErrors(body);
    if errs != [] {
      return Err(FormCreationError, ErrorsJson(errs));
    }
    var existing := st.Db().Find(st.forms, TitleIs(body.title.value));
    if existing.Some? {
      return Err(FormCreationError, DuplicateTitleMessage);
    }
    var f := NewForm(body);
    var id := st.CreateForm(f);
    r := Ok((id, f));
  }

  method Update(st: Store, id: Id, body: FormBody) returns (r: Result<Form>)
    requires st.Valid()
    modifies st
    ensures st.Valid() && (st.Db(), r) == PatchSpec(old(st.Db()), id, body, UpdateFormError)
  {
    var f := st.UpdateForm(id, body);
    if f.None? {
      return Err(UpdateFormError, NullRead("title"));
    }
    r := Ok(f.value);
  }

  /** The `is_active` check records an error that is never looked at. */
  method UpdateStatus(st: Store, id: Id, body: FormBody) returns (r: Result<Form>)
    requires st.Valid()
    modifies st
    ensures st.Valid() && (st.Db(), r) == PatchSpec(old(st.Db()), id, body, FormStatusUpdateError)
  {
    var f := st.UpdateForm(id, body);
    if f.None? {
      return Err(FormStatusUpdateError, NullRead("title"));
    }
    r := Ok(f.value);
  }

  /** The `fetchOne` handler. */
  method FetchOne(st: Store, id: Id) returns (r: Result<Form>)
    requires st.Valid()
    ensures r.Ok? <==> id in st.forms
    ensures r.Ok? ==> r.value == st.forms[id]
    ensures r.Err? ==> r == Err(FormRetrievalError, NullRead("title"))
  {
    var f := Lookup(st.forms, id);
    if f.None? {
      return Err(FormRetrievalError, NullRead("title"));
    }
    r := Ok(f.value);
  }

  // ---- what the source promises about forms ----

  /** No two stored forms share a title. */
  ghost predicate UniqueTitles(forms: map<Id, Form>)
  {
    forall a, b :: a in forms && b in forms && a != b ==> forms[a].title != forms[b].title
  }

  /**
    Create refuses, writing nothing, when `type` or `title` is empty, with
    both messages when both are; it refuses a title already on file; and
    otherwise stores exactly the body under a fresh id.
   */
  lemma CreateOutcome(db: DB, body: FormBody)
    requires db.Valid()
    ensures var (d, r) := CreateSpec(db, body);
      && (Empty(body.ftype) && Empty(body.title) ==>
            d == db && r == Err(FormCreationError, ErrorsJson([("type", TypeEmptyMessage), ("title", TitleEmptyMessage)])))
      && (Empty(body.ftype) && !Empty(body.title) ==>
            d == db && r == Err(FormCreationError, ErrorsJson([("type", TypeEmptyMessage)])))
      && (!Empty(body.ftype) && Empty(body.title) ==>
            d == db && r == Err(FormCreationError, ErrorsJson([("title", TitleEmptyMessage)])))
      && (!Empty(body.ftype) && !Empty(body.title) ==>
            ((exists k :: k in db.forms && db.forms[k].title == body.title.value) <==> r.Err?)
            && (r.Err? ==> d == db && r == Err(FormCreationError, DuplicateTitleMessage))
            && (r.Ok? ==>
                  && r.value.0 !in db.forms && d.forms == db.forms[r.value.0 := r.value.1]
                  && r.value.1 == NewForm(body)
                  && r.value.1.title == body.title.value && r.value.1.ftype == body.ftype.value
                  && d == db.(forms := d.forms, next := d.next)))
  {
    if !Empty(body.ftype) && !Empty(body.title) {
      var t := body.title.value;
      if exists k :: k in db.forms && db.forms[k].title == t {
        var k :| k in db.forms && db.forms[k].title == t;
        assert TitleIs(t)(db.forms[k]);
      }
    }
  }

  /** Create keeps titles unique. */
  lemma CreateKeepsTitlesUnique(db: DB, body: FormBody)
    requires db.Valid() && UniqueTitles(db.forms)
    ensures UniqueTitles(CreateSpec(db, body).0.forms)
  {
    CreateOutcome(db, body);
    var (d, r) := CreateSpec(db, body);
    if r.Ok? {
      var id := r.value.0;
      forall a, b | a in d.forms && b in d.forms && a != b
        ensures d.forms[a].title != d.forms[b].title
      {
        if a == id {
          assert b in db.forms;
        } else if b == id {
          assert a in db.forms;
        }
      }
    }
  }

  /** Update checks no titles: two forms with distinct titles can be given the same one. */
  lemma UpdateBreaksUniqueTitles()
    ensures var db := DB(map[0 := Form("a", "A", None, []), 1 := Form("a", "B", None, [])], map[], map[], map[], map[], map[], map[], map[], map[], 2);
      && db.Valid() && UniqueTitles(db.forms)
      && !UniqueTitles(PatchSpec(db, 1, FormBody(None, Some("A"), None, None), UpdateFormError).0.forms)
  {
    var db := DB(map[0 := Form("a", "A", None, []), 1 := Form("a", "B", None, [])], map[], map[], map[], map[], map[], map[], map[], map[], 2);
    var d := PatchSpec(db, 1, FormBody(None, Some("A"), None, None), UpdateFormError).0;
    assert d.forms[0].title == d.forms[1].title;
  }

  /**
    A patch changes only the form with the given id, and only the fields the
    body carries; it writes nothing when there is no such form.
   */
  lemma PatchOnlyThatForm(db: DB, id: Id, body: FormBody, kind: ErrorType)
    ensures var (d, r) := PatchSpec(db, id, body, kind);
      && (id in db.forms ==> r == Ok(ApplyFormBody(db.forms[id], body)) && d == db.(forms := db.forms[id := r.value]))
      && (id !in db.forms ==> d == db && r == Err(kind, NullRead("title")))
      && (forall k :: k in db.forms && k != id ==> k in d.forms && d.forms[k] == db.forms[k])
      && d.forms.Keys == db.forms.Keys
  {
  }

  /** `updateStatus` applies its patch even when `is_active` is missing. */
  lemma StatusPatchIgnoresValidation(db: DB, id: Id, body: FormBody)
    requires id in db.forms && body.isActive.None?
    ensures var (d, r) := PatchSpec(db, id, body, FormStatusUpdateError);
      r.Ok? && d.forms[id] == ApplyFormBody(db.forms[id], body) && d.forms[id].isActive == db.forms[id].isActive
  {
  }

  // ---- pagination options ----

  /** What unary `+` makes of a query string: an integer, or a value this model does not interpret. */
  datatype JsNumber = Num(n: int) | Uninterpreted(text: string)

  /** The options handed to the paginated query. */
  datatype PageOptions = PageOptions(page: JsNumber, limit: JsNumber, sort: map<string, int>)

  /** The white space and line terminators `Number` trims: tab, vertical tab, form feed, the Unicode space separators, the byte order mark, LF, CR, LS and PS. */
  predicate IsSpace(c: char)
  {
    c == ' ' || c == '\t' || c == '\n' || c == '\r' || c == '\U{000B}' || c == '\U{000C}'
    || c == '\U{00A0}' || c == '\U{2028}' || c == '\U{2029}' || c == '\U{FEFF}'
    || c == '\U{1680}' || '\U{2000}' <= c <= '\U{200A}' || c == '\U{202F}' || c == '\U{205F}' || c == '\U{3000}'
  }

  predicate IsDigit(c: char) { '0' <= c <= '9' }

  function TrimStart(s: string): (r: string)
    ensures |r| <= |s| && (r == [] || !IsSpace(r[0]))
    ensures r == s[|s| - |r|..]
  {
    if s != [] && IsSpace(s[0]) then TrimStart(s[1..]) else s
  }

  function TrimEnd(s: string): (r: string)
    ensures |r| <= |s| && (r == [] || !IsSpace(r[|r| - 1]))
    ensures r == s[..|r|]
  {
    if s != [] && IsSpace(s[|s| - 1]) then TrimEnd(s[..|s| - 1]) else s
  }

  function Trim(s: string): string
  {
    TrimEnd(TrimStart(s))
  }

  predicate AllDigits(s: string)
  {
    forall i :: 0 <= i < |s| ==> IsDigit(s[i])
  }

  /** The value of a string of decimal digits. */
  function DigitsValue(s: string): nat
    requires AllDigits(s)
  {
    if s == [] then 0 else DigitsValue(s[..|s| - 1]) * 10 + (s[|s| - 1] - '0') as nat
  }

  /**
    Unary `+` on a string, for decimal integers: surrounding white space is
    ignored, the blank string is 0, and a sign may lead the digits.
    Fractions, exponents, hexadecimal, `Infinity` and what is `NaN` in
    JavaScript are left uninterpreted.
   */
  function ToNumber(s: string): JsNumber
  {
    var t := Trim(s);
    if t == [] then Num(0)
    else if AllDigits(t) then Num(DigitsValue(t))
    else if |t| > 1 && t[0] == '-' && AllDigits(t[1..]) then Num(-(DigitsValue(t[1..]) as int))
    else if |t| > 1 && t[0] == '+' && AllDigits(t[1..]) then Num(DigitsValue(t[1..]))
    else Uninterpreted(s)
  }

  /** `query.x || d`: a missing or empty parameter gives the default. */
  function OrDefault(q: Option<string>, d: int): JsNumber
  {
    if q.None? || q.value == "" then Num(d) else ToNumber(q.value)
  }

  /** The options `fetchAllByPagination` builds from `page`, `per_page` and `sort_by`. */
  function Options(page: Option<string>, perPage: Option<string>, sortBy: Option<string>): PageOptions
  {
    PageOptions(
      OrDefault(page, 1),
      OrDefault(perPage, 10),
      if sortBy.Some? && sortBy.value != "" then map[sortBy.value := 1] else map[])
  }

  /** The decimal spelling of a natural number. */
  function ShowNat(n: nat): (s: string)
    ensures s != [] && AllDigits(s)
  {
    if n < 10 then [('0' as int + n) as char] else ShowNat(n / 10) + [('0' as int + n % 10) as char]
  }

  lemma {:induction false} ShowNatValue(n: nat)
    ensures DigitsValue(ShowNat(n)) == n
  {
    var s := ShowNat(n);
    if n >= 10 {
      ShowNatValue(n / 10);
      assert s[..|s| - 1] == ShowNat(n / 10);
    }
  }

  /** A string with no white space at either end is its own trim. */
  lemma TrimNoSpace(s: string)
    requires s != [] && !IsSpace(s[0]) && !IsSpace(s[|s| - 1])
    ensures Trim(s) == s
  {
  }

  /**
    Without parameters the options are page 1, limit 10 and no sort. A
    decimal `page` or `per_page` is read as its value. The sort is ascending
    on `sort_by` exactly when `sort_by` is given and not empty.
   */
  lemma OptionsDefaults(page: Option<string>, perPage: Option<string>, sortBy: Option<string>)
    ensures var o := Options(page, perPage, sortBy);
      && ((page.None? || page.value == "") ==> o.page == Num(1))
      && ((perPage.None? || perPage.value == "") ==> o.limit == Num(10))
      && ((sortBy.None? || sortBy.value == "") <==> o.sort == map[])
      && (sortBy.Some? && sortBy.value != "" ==> o.sort == map[sortBy.value := 1])
  {
    var o := Options(page, perPage, sortBy);
    if sortBy.Some? && sortBy.value != "" {
      assert sortBy.value in o.sort;
    }
  }

  /** Unary `+` reads the decimal spelling of a natural number as that number. */
  lemma ReadShowNat(n: nat)
    ensures ToNumber(ShowNat(n)) == Num(n)
  {
    var s := ShowNat(n);
    assert IsDigit(s[0]) && IsDigit(s[|s| - 1]);
    TrimNoSpace(s);
    ShowNatValue(n);
  }

  lemma OptionsReadNumbers(p: nat, l: nat, sortBy: Option<string>)
    ensures var o := Options(Some(ShowNat(p)), Some(ShowNat(l)), sortBy);
      o.page == Num(p) && o.limit == Num(l)
  {
    ReadShowNat(p);
    ReadShowNat(l);
  }
}
