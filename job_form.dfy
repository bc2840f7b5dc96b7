/** The job form's working state: a nine-field job record, a partial map
    from field to error message, and the handlers that change them
    (react-redux-saga-boilerplate/src/components/JobForm.tsx). */
module JobFormModel {
  import opened Options
  import opened Text
  import IsoDate

  /** A job record. `id` is optional: absent for a job not yet saved. */
  datatype JobDetails = JobDetails(
    id: Option<string>,
    title: string,
    description: string,
    location: string,
    salary: string,
    skills: string,
    category: string,
    dateOfPost: string,
    lastDate: string)

  /** The fields the form has inputs for, named as the inputs' `name`
      attributes are; these are also the keys the error map can hold. */
  datatype Field =
    | Title | Description | Location | Salary | Skills | Category
    | DateOfPost | LastDate
  {
    /** The six fields that are only required to be non-blank. */
    predicate IsText() {
      !DateOfPost? && !LastDate?
    }
  }

  const AllFields: set<Field> :=
    {Title, Description, Location, Salary, Skills, Category, DateOfPost, LastDate}

  /** The value the form holds for field `f`. */
  function Get(d: JobDetails, f: Field): string {
    match f
    case Title => d.title
    case Description => d.description
    case Location => d.location
    case Salary => d.salary
    case Skills => d.skills
    case Category => d.category
    case DateOfPost => d.dateOfPost
    case LastDate => d.lastDate
  }

  /** `{...d, [f]: v}`: the record with field `f` replaced by `v`. */
  function Set(d: JobDetails, f: Field, v: string): JobDetails {
    match f
    case Title => d.(title := v)
    case Description => d.(description := v)
    case Location => d.(location := v)
    case Salary => d.(salary := v)
    case Skills => d.(skills := v)
    case Category => d.(category := v)
    case DateOfPost => d.(dateOfPost := v)
    case LastDate => d.(lastDate := v)
  }

  /** Setting a field then reading fields back: the set field holds the new
      value, every other field and the identifier are unchanged. */
  lemma SetThenGet(d: JobDetails, f: Field, v: string, g: Field)
    ensures Get(Set(d, f, v), g) == (if g == f then v else Get(d, g))
    ensures Set(d, f, v).id == d.id
  {
  }

  /** Writing back the value a field already holds changes nothing. */
  lemma SetGetIdentity(d: JobDetails, f: Field)
    ensures Set(d, f, Get(d, f)) == d
  {
  }

  /** The record every field of which is `''`, as the form's reset writes it. */
  function BlankDetails(): (r: JobDetails)
    ensures r.id == Some("")
    ensures forall f :: Get(r, f) == ""
  {
    JobDetails(Some(""), "", "", "", "", "", "", "", "")
  }

  /** `x || ''` on an optional string: the string when it is present and
      non-empty, `''` otherwise. */
  function OrEmpty(x: Option<string>): string {
    if x.Some? && x.value != "" then x.value else ""
  }

  /** The `useState` initialiser: each field from `initialJob` when there is
      one, `''` otherwise. */
  function Seed(initialJob: Option<JobDetails>): JobDetails {
    var j := initialJob;
    JobDetails(
      Some(OrEmpty(if j.Some? then j.value.id else None)),
      OrEmpty(if j.Some? then Some(j.value.title) else None),
      OrEmpty(if j.Some? then Some(j.value.description) else None),
      OrEmpty(if j.Some? then Some(j.value.location) else None),
      OrEmpty(if j.Some? then Some(j.value.salary) else None),
      OrEmpty(if j.Some? then Some(j.value.skills) else None),
      OrEmpty(if j.Some? then Some(j.value.category) else None),
      OrEmpty(if j.Some? then Some(j.value.dateOfPost) else None),
      OrEmpty(if j.Some? then Some(j.value.lastDate) else None))
  }

  /** Seeding copies every field of the initial job (an empty field falls
      back to `''`, which is the same string), gives a missing identifier
      the value `''`, and without an initial job yields the blank record. */
  lemma SeedFields(initialJob: Option<JobDetails>)
    ensures initialJob.None? ==> Seed(initialJob) == BlankDetails()
    ensures initialJob.Some? ==>
      (forall f :: Get(Seed(initialJob), f) == Get(initialJob.value, f)) &&
      Seed(initialJob).id == Some(initialJob.value.id.GetOr(""))
  {
  }

  /** The error state `Partial<JobDetails>`: each field's entry is absent
      or holds a message. (The identifier's entry is never written, so it
      is not represented.) */
  datatype FieldErrors = FieldErrors(
    title: Option<string>,
    description: Option<string>,
    location: Option<string>,
    salary: Option<string>,
    skills: Option<string>,
    category: Option<string>,
    dateOfPost: Option<string>,
    lastDate: Option<string>)

  /** `{}`: no entry at all. */
  const NoEntries: FieldErrors :=
    FieldErrors(None, None, None, None, None, None, None, None)

  /** The entry for field `f`. */
  function EntryAt(e: FieldErrors, f: Field): Option<string> {
    match f
    case Title => e.title
    case Description => e.description
    case Location => e.location
    case Salary => e.salary
    case Skills => e.skills
    case Category => e.category
    case DateOfPost => e.dateOfPost
    case LastDate => e.lastDate
  }

  /** `{...e, [f]: msg}`: the entry for `f` set to `msg`. */
  function WithEntry(e: FieldErrors, f: Field, msg: string): FieldErrors {
    match f
    case Title => e.(title := Some(msg))
    case Description => e.(description := Some(msg))
    case Location => e.(location := Some(msg))
    case Salary => e.(salary := Some(msg))
    case Skills => e.(skills := Some(msg))
    case Category => e.(category := Some(msg))
    case DateOfPost => e.(dateOfPost := Some(msg))
    case LastDate => e.(lastDate := Some(msg))
  }

  /** `Object.keys(e)`: the fields that have an entry, whatever it holds
      (an entry holding `''` is still a key). */
  function Keys(e: FieldErrors): (ks: set<Field>)
    ensures forall f :: f in ks <==> EntryAt(e, f).Some?
  {
    set f | f in AllFields && EntryAt(e, f).Some?
  }

  /** Setting one entry then reading entries back: the set entry holds the
      new message, every other entry is unchanged. */
  lemma WithEntryThenEntryAt(e: FieldErrors, f: Field, msg: string, g: Field)
    ensures EntryAt(WithEntry(e, f, msg), g) == (if g == f then Some(msg) else EntryAt(e, g))
  {
  }

  /** The message validation records for a field that fails its rule. */
  function Message(f: Field): string {
    match f
    case Title => "Job title is required"
    case Description => "Job description is required"
    case Location => "Job location is required"
    case Salary => "Salary is required"
    case Skills => "Skills are required"
    case Category => "Category is required"
    case DateOfPost => "Invalid date of post"
    case LastDate => "Invalid last date"
  }

  /** Each field has its own message, so a message names its field. */
  lemma MessagesDistinct(f: Field, g: Field)
    ensures Message(f) == Message(g) <==> f == g
  {
  }

  /** The rule one field must satisfy: a text field is not blank; the date
      of post is given and not later than `today`; the last date is given
      and not earlier than `today`. Dates are ISO `YYYY-MM-DD` strings,
      ordered as strings. */
  predicate FieldValid(d: JobDetails, f: Field, today: string) {
    match f
    case DateOfPost => d.dateOfPost != "" && LexLe(d.dateOfPost, today)
    case LastDate => d.lastDate != "" && LexLe(today, d.lastDate)
    case _ => !IsBlank(Get(d, f))
  }

  /** The entry a rule-abiding validation gives field `f`: its message
      when the field breaks its rule, none otherwise. */
  function Verdict(d: JobDetails, f: Field, today: string): Option<string> {
    if FieldValid(d, f, today) then None else Some(Message(f))
  }

  /** The errors `validate` builds, starting from `{}`: one check per
      field, each on its own, as the code writes them (`!x.trim()` for the
      six text fields, string comparison against `today` for the dates). */
  function ComputeErrors(d: JobDetails, today: string): FieldErrors {
    FieldErrors(
      if Trim(d.title) == "" then Some("Job title is required") else None,
      if Trim(d.description) == "" then Some("Job description is required") else None,
      if Trim(d.location) == "" then Some("Job location is required") else None,
      if Trim(d.salary) == "" then Some("Salary is required") else None,
      if Trim(d.skills) == "" then Some("Skills are required") else None,
      if Trim(d.category) == "" then Some("Category is required") else None,
      if d.dateOfPost == "" || LexLt(today, d.dateOfPost) then Some("Invalid date of post") else None,
      if d.lastDate == "" || LexLt(d.lastDate, today) then Some("Invalid last date") else None)
  }

  /** Every entry of the computed errors is that field's verdict: the
      checks implement the rules, field by field. */
  lemma ErrorsFollowRules(d: JobDetails, today: string, f: Field)
    ensures EntryAt(ComputeErrors(d, today), f) == Verdict(d, f, today)
  {
    match f
    case DateOfPost => LexLeIffNotLt(d.dateOfPost, today);
    case LastDate => LexLeIffNotLt(today, d.lastDate);
    case _ =>
  }

  /** A record the form accepts, with the eight conditions written out. */
  predicate IsValid(d: JobDetails, today: string) {
    && !IsBlank(d.title)
    && !IsBlank(d.description)
    && !IsBlank(d.location)
    && !IsBlank(d.salary)
    && !IsBlank(d.skills)
    && !IsBlank(d.category)
    && d.dateOfPost != "" && LexLe(d.dateOfPost, today)
    && d.lastDate != "" && LexLe(today, d.lastDate)
  }

  /** Validation reports no error exactly when the record is valid. */
  lemma NoErrorsIffValid(d: JobDetails, today: string)
    ensures Keys(ComputeErrors(d, today)) == {} <==> IsValid(d, today)
  {
    var e := ComputeErrors(d, today);
    forall f ensures EntryAt(e, f) == Verdict(d, f, today) {
      ErrorsFollowRules(d, today, f);
    }
    if Keys(e) == {} {
      assert Title !in Keys(e) && Description !in Keys(e) && Location !in Keys(e);
      assert Salary !in Keys(e) && Skills !in Keys(e) && Category !in Keys(e);
      assert DateOfPost !in Keys(e) && LastDate !in Keys(e);
    } else {
      var f :| f in Keys(e);
      assert !FieldValid(d, f, today);
    }
  }

  /** Each text field is checked on its own: it has an entry exactly when
      it is blank, and the entry is its own message. */
  lemma TextFieldChecked(d: JobDetails, today: string, f: Field)
    requires f.IsText()
    ensures EntryAt(ComputeErrors(d, today), f) ==
      if IsBlank(Get(d, f)) then Some(Message(f)) else None
  {
  }

  /** A record whose only fault is one blank text field gets exactly that
      field's message and no other entry. */
  lemma OnlyBlankFieldReported(d: JobDetails, today: string, f: Field)
    requires f.IsText() && IsBlank(Get(d, f))
    requires forall g :: g != f ==> FieldValid(d, g, today)
    ensures forall g :: EntryAt(ComputeErrors(d, today), g) == if g == f then Some(Message(f)) else None
  {
    forall g ensures EntryAt(ComputeErrors(d, today), g) == if g == f then Some(Message(f)) else None {
      ErrorsFollowRules(d, today, g);
    }
  }

  /** The date of post passes exactly when it is given and not later than
      `today`: equal to a non-empty `today` passes, empty or later fails. */
  lemma DateOfPostBoundary(d: JobDetails, today: string)
    ensures EntryAt(ComputeErrors(d, today), DateOfPost) == None <==>
      d.dateOfPost != "" && LexLe(d.dateOfPost, today)
    ensures d.dateOfPost == today != "" ==> EntryAt(ComputeErrors(d, today), DateOfPost) == None
    ensures d.dateOfPost == "" || LexLt(today, d.dateOfPost) ==>
      EntryAt(ComputeErrors(d, today), DateOfPost) == Some("Invalid date of post")
  {
    ErrorsFollowRules(d, today, DateOfPost);
    LexLeReflexive(today);
  }

  /** The last date passes exactly when it is given and not earlier than
      `today`: equal to a non-empty `today` passes, empty or earlier fails. */
  lemma LastDateBoundary(d: JobDetails, today: string)
    ensures EntryAt(ComputeErrors(d, today), LastDate) == None <==>
      d.lastDate != "" && LexLe(today, d.lastDate)
    ensures d.lastDate == today != "" ==> EntryAt(ComputeErrors(d, today), LastDate) == None
    ensures d.lastDate == "" || LexLt(d.lastDate, today) ==>
      EntryAt(ComputeErrors(d, today), LastDate) == Some("Invalid last date")
  {
    ErrorsFollowRules(d, today, LastDate);
    LexLeReflexive(today);
  }

  /** There is no rule relating the two dates, yet both are checked against
      the same `today`, so an accepted record never has its last date
      before its date of post. */
  lemma ValidDatesOrdered(d: JobDetails, today: string)
    requires IsValid(d, today)
    ensures LexLe(d.dateOfPost, d.lastDate)
  {
    LexLeTransitive(d.dateOfPost, today, d.lastDate);
  }

  /** When both dates and `today` are well-formed ISO dates, the two date
      rules are the chronological ones: the date of post is not after
      today, and today is not after the last date. */
  lemma DateRulesAreChronological(
    d: JobDetails, today: string, post: IsoDate.Date, last: IsoDate.Date, now: IsoDate.Date)
    requires IsoDate.WellFormed(post) && IsoDate.WellFormed(last) && IsoDate.WellFormed(now)
    requires d.dateOfPost == IsoDate.Format(post) && d.lastDate == IsoDate.Format(last)
    requires today == IsoDate.Format(now)
    ensures FieldValid(d, DateOfPost, today) <==> !IsoDate.Before(now, post)
    ensures FieldValid(d, LastDate, today) <==> !IsoDate.Before(last, now)
  {
    IsoDate.FormatOrderLe(post, now);
    IsoDate.FormatOrderLe(now, last);
  }

  /** A reset form never passes validation: every field gets an entry. */
  lemma BlankIsInvalid(today: string)
    ensures !IsValid(BlankDetails(), today)
    ensures Keys(ComputeErrors(BlankDetails(), today)) == AllFields
  {
  }

  /** One instance of the form component: its two state cells and its
      handlers, each handler one atomic update. */
  class JobForm {
    var details: JobDetails
    var errors: FieldErrors

    /** The first render: `details` from the `useState` initialiser, no
        errors. The `initialJob` effect runs after it (SyncInitialJob), so a
        mount with an initial job is this constructor followed by
        SyncInitialJob of the same job. */
    constructor (initialJob: Option<JobDetails>)
      ensures details == Seed(initialJob)
      ensures errors == NoEntries
    {
      details := Seed(initialJob);
      errors := NoEntries;
    }

    /** The `initialJob` effect: when an initial job is given, it replaces
        the whole record verbatim (identifier included, absent or not);
        otherwise nothing changes. Errors are left as they are. */
    method SyncInitialJob(initialJob: Option<JobDetails>)
      modifies this
      ensures details == (if initialJob.Some? then initialJob.value else old(details))
      ensures errors == old(errors)
    {
      if initialJob.Some? {
        details := initialJob.value;
      }
    }

    /** `handleChange`: field `name` takes `value`, and its error entry is
        overwritten with `''` whether or not `value` is valid. Every other
        field and every other error entry is unchanged. */
    method HandleChange(name: Field, value: string)
      modifies this
      ensures details == Set(old(details), name, value)
      ensures Get(details, name) == value
      ensures forall g :: g != name ==> Get(details, g) == Get(old(details), g)
      ensures details.id == old(details).id
      ensures errors == WithEntry(old(errors), name, "")
      ensures EntryAt(errors, name) == Some("")
      ensures forall g :: g != name ==> EntryAt(errors, g) == EntryAt(old(errors), g)
    {
      details := Set(details, name, value);
      errors := WithEntry(errors, name, "");
    }

    /** `validate`: rebuilds the errors from scratch, one independent check
        per field, replaces the old errors with them and reports whether
        there is no key. The record itself is not touched. */
    method Validate(today: string) returns (ok: bool)
      modifies this
      ensures details == old(details)
      ensures errors == ComputeErrors(details, today)
      ensures ok <==> Keys(errors) == {}
      ensures ok <==> IsValid(details, today)
    {
      errors := ComputeErrors(details, today);
      ok := |Keys(errors)| == 0;
      NoErrorsIffValid(details, today);
    }

    /** `resetForm`: every field, the identifier included, becomes `''` and
        the errors become `{}`, whatever the state before; so resetting
        twice gives the same state as resetting once. */
    method ResetForm()
      modifies this
      ensures details == BlankDetails()
      ensures errors == NoEntries
    {
      details := BlankDetails();
      errors := NoEntries;
    }

    /** `handleSubmit`: validates, and only when validation passes hands the
        current record to the caller's handler (returned here; the handler
        also receives `ResetForm` and may call it). */
    method HandleSubmit(today: string) returns (submitted: Option<JobDetails>)
      modifies this
      ensures details == old(details)
      ensures errors == ComputeErrors(details, today)
      ensures submitted == if IsValid(details, today) then Some(details) else None
    {
      var ok := Validate(today);
      if ok {
        submitted := Some(details);
      } else {
        submitted := None;
      }
    }
  }

  /** Mounting with an initial job: after the first render and the effect,
      the form holds the job itself, an absent identifier included. */
  method MountScenario(j: JobDetails)
  {
    var form := new JobForm(Some(j));
    form.SyncInitialJob(Some(j));
    assert form.details == j && Keys(form.errors) == {};
  }

  /** Submitting a blank form, then editing one field: nothing is handed
      on, and the edit overwrites only that field's entry, leaving the
      others as validation left them. */
  method EditAfterValidateScenario(today: string)
  {
    var form := new JobForm(None);
    SeedFields(None);
    var submitted := form.HandleSubmit(today);
    BlankIsInvalid(today);
    assert submitted == None;
    TextFieldChecked(form.details, today, Skills);
    assert EntryAt(form.errors, Skills) == Some("Skills are required");
    form.HandleChange(Title, "Engineer");
    assert EntryAt(form.errors, Title) == Some("");
    assert EntryAt(form.errors, Skills) == Some("Skills are required");
    form.ResetForm();
    assert form.details == BlankDetails() && Keys(form.errors) == {};
  }
}
