/**
 * The add/edit form: where its fields start, when it is valid, the error map it shows,
 * the payload it submits and when it clears itself.
 */
module SnippetForm {
  import opened Wrappers
  import opened Text
  import opened Snippet

  /** The form's `initialValues` prop: every field may be missing. */
  datatype InitialValues = InitialValues(id: Option<string>, title: Option<string>,
                                         description: Option<string>, code: Option<string>)

  datatype Field = Title | Description | Code

  /** The initial values the app passes when a record is being edited. */
  function FromRecord(r: Record): InitialValues {
    InitialValues(Some(r.id), Some(r.title), Some(r.description), Some(r.code))
  }

  /** `!!(initialValues && initialValues.id)` */
  predicate IsEdit(iv: Option<InitialValues>) {
    iv.Some? && Truthy(iv.value.id)
  }

  /** `initialValues?.<field> || ''` */
  function StartValue(iv: Option<InitialValues>, f: Field): (v: string)
    ensures iv.None? ==> v == ""
    ensures iv.Some? && f == Title ==> v == OrEmpty(iv.value.title)
    ensures iv.Some? && f == Description ==> v == OrEmpty(iv.value.description)
    ensures iv.Some? && f == Code ==> v == OrEmpty(iv.value.code)
  {
    match iv
    case None => ""
    case Some(v) =>
      match f
      case Title => OrEmpty(v.title)
      case Description => OrEmpty(v.description)
      case Code => OrEmpty(v.code)
  }

  /**
   * Editing a record starts every field at the record's own value, and the form is in edit
   * mode exactly when the record's id is non-empty.
   */
  lemma EditStartsFromRecord(r: Record)
    ensures StartValue(Some(FromRecord(r)), Title) == r.title
    ensures StartValue(Some(FromRecord(r)), Description) == r.description
    ensures StartValue(Some(FromRecord(r)), Code) == r.code
    ensures IsEdit(Some(FromRecord(r))) <==> r.id != ""
  {
  }

  /** `valid`: title and code are non-empty once trimmed; the description plays no part. */
  predicate Valid(title: string, code: string) {
    |Trim(title)| > 0 && |Trim(code)| > 0
  }

  /** A form is valid exactly when its title and its code each hold a visible character. */
  lemma ValidIffVisible(title: string, code: string)
    ensures Valid(title, code) <==>
              (exists k :: 0 <= k < |title| && !IsSpace(title[k]))
              && (exists k :: 0 <= k < |code| && !IsSpace(code[k]))
  {
    TrimNonEmptyIffVisible(title);
    TrimNonEmptyIffVisible(code);
  }

  /** The error map `validate` computes: a `title` entry and a `code` entry for each blank field. */
  function Validation(title: string, code: string): (errs: map<string, string>)
    ensures errs.Keys <= {"title", "code"}
    ensures "title" in errs <==> Trim(title) == ""
    ensures "code" in errs <==> Trim(code) == ""
    ensures "title" in errs ==> errs["title"] == "Title is required"
    ensures "code" in errs ==> errs["code"] == "Code is required"
  {
    var errs := if Trim(title) == "" then map["title" := "Title is required"] else map[];
    if Trim(code) == "" then errs["code" := "Code is required"] else errs
  }

  /** `validate()` answers true exactly when the form is `valid`. */
  lemma ValidationAgreesWithValid(title: string, code: string)
    ensures |Validation(title, code)| == 0 <==> Valid(title, code)
  {
    var errs := Validation(title, code);
    if |errs| == 0 {
      assert "title" !in errs && "code" !in errs;
    } else {
      var k :| k in errs;
    }
  }

  /** The payload `handleSubmit` hands on: title and description trimmed, code as typed. */
  function Submitted(title: string, description: string, code: string): Payload {
    Payload(Trim(title), Some(Trim(description)), code)
  }

  /**
   * What a valid form submits: a title and a description that neither begin nor end with
   * white space (trimming them again changes nothing), a non-empty title, the code exactly as
   * typed, and a code that still holds a visible character.
   */
  lemma SubmittedFromValidForm(title: string, description: string, code: string)
    requires Valid(title, code)
    ensures var p := Submitted(title, description, code);
      p.title != "" && Trim(p.title) == p.title
      && p.description.Some? && Trim(p.description.value) == p.description.value
      && p.code == code && Trim(p.code) != ""
  {
    TrimIdempotent(title);
    TrimIdempotent(description);
  }

  class Form {
    var initialValues: Option<InitialValues>
    var title: string
    var description: string
    var code: string
    var errors: map<string, string>
    var submitting: bool

    /** The form as first rendered from its props. */
    constructor (iv: Option<InitialValues>)
      ensures initialValues == iv
      ensures title == StartValue(iv, Title) && description == StartValue(iv, Description)
      ensures code == StartValue(iv, Code)
      ensures errors == map[] && !submitting
    {
      initialValues := iv;
      title, description, code := StartValue(iv, Title), StartValue(iv, Description), StartValue(iv, Code);
      errors, submitting := map[], false;
    }

    /** New props: the effect loads the three fields from them again. */
    method Receive(iv: Option<InitialValues>)
      modifies this
      ensures initialValues == iv
      ensures title == StartValue(iv, Title) && description == StartValue(iv, Description)
      ensures code == StartValue(iv, Code)
      ensures errors == old(errors) && submitting == old(submitting)
    {
      initialValues := iv;
      title, description, code := StartValue(iv, Title), StartValue(iv, Description), StartValue(iv, Code);
    }

    /** An input's `onChange`: that field takes what was typed. */
    method Change(f: Field, value: string)
      modifies this
      ensures title == (if f == Title then value else old(title))
      ensures description == (if f == Description then value else old(description))
      ensures code == (if f == Code then value else old(code))
      ensures initialValues == old(initialValues) && errors == old(errors)
      ensures submitting == old(submitting)
    {
      match f
      case Title => title := value;
      case Description => description := value;
      case Code => code := value;
    }

    /** The submit button is enabled when the form is valid and not already submitting. */
    predicate CanSubmit()
      reads this
    {
      Valid(title, code) && !submitting
    }

    /** `validate()`: show the error map; answer whether it is empty. */
    method Validate() returns (ok: bool)
      modifies this`errors
      ensures errors == Validation(title, code)
      ensures ok <==> Valid(title, code)
    {
      errors := Validation(title, code);
      ValidationAgreesWithValid(title, code);
      ok := |errors| == 0;
    }

    /**
     * `handleSubmit`: an invalid form only shows its errors and submits nothing. A valid one
     * submits its payload; `accepted` is what `onSubmit` resolved to. The fields are cleared
     * only when that is true and the form is not editing.
     */
    method HandleSubmit(accepted: bool) returns (sent: Option<Payload>)
      modifies this
      ensures errors == Validation(old(title), old(code))
      ensures initialValues == old(initialValues)
      ensures !Valid(old(title), old(code)) ==>
                sent == None && title == old(title) && description == old(description)
                && code == old(code) && submitting == old(submitting)
      ensures Valid(old(title), old(code)) ==>
                sent == Some(Submitted(old(title), old(description), old(code))) && !submitting
      ensures Valid(old(title), old(code)) && accepted && !IsEdit(initialValues) ==>
                title == "" && description == "" && code == ""
      ensures Valid(old(title), old(code)) && !(accepted && !IsEdit(initialValues)) ==>
                title == old(title) && description == old(description) && code == old(code)
    {
      var ok := Validate();
      if !ok {
        return None;
      }
      submitting := true;
      sent := Some(Submitted(title, description, code));
      submitting := false;
      if accepted && !IsEdit(initialValues) {
        title, description, code := "", "", "";
      }
    }
  }
}
