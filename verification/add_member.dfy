/** The add-member form: its starting contents, field edits, and the
    required-field check on submit. */
module AddMember {
  import opened Wrappers
  import opened Members

  /** The form as it opens: every field, required or optional, is "". */
  const InitialForm: Member := Member(
    "", "", "", "", "",
    Some(""), Some(""), Some(""), Some(""), Some(""), Some(""), Some(""),
    Some(""), Some(""), Some(""), Some(""), Some(""), Some(""), Some(""),
    Some(""), Some(""), Some(""), Some(""), Some(""))

  /** `handleInputChange(field, value)`: that field becomes `value` and no
      other field changes. */
  function InputChange(form: Member, f: Field, v: string): (r: Member)
    ensures Get(r, f) == Some(v)
    ensures forall g :: g != f ==> Get(r, g) == Get(form, g)
  {
    Set(form, f, v)
  }

  /** What submitting does: either the "Missing Required Fields" rejection,
      or `onAdd` called with the record. */
  datatype Outcome = MissingRequiredFields | Added(member: Member)

  /** `handleSubmit`: rejected when any of the five required fields is the
      empty string (a blank but non-empty value passes); otherwise the form
      record itself is handed on, whatever the optional fields hold. */
  function Submit(form: Member): (r: Outcome)
    ensures r == MissingRequiredFields <==> exists f :: IsRequired(f) && Get(form, f) == Some("")
    ensures r.Added? ==> r.member == form
  {
    if form.memberNo == "" || form.memberName == "" || form.memberType == ""
       || form.siteNo == "" || form.contactDetails == ""
    then
      assert form.memberNo == "" ==> Get(form, MemberNo) == Some("");
      assert form.memberName == "" ==> Get(form, MemberName) == Some("");
      assert form.memberType == "" ==> Get(form, MemberType) == Some("");
      assert form.siteNo == "" ==> Get(form, SiteNo) == Some("");
      assert form.contactDetails == "" ==> Get(form, ContactDetails) == Some("");
      MissingRequiredFields
    else
      Added(form)
  }

  /** Submitting the form as it opens is rejected. */
  lemma InitialFormRejected()
    ensures Submit(InitialForm) == MissingRequiredFields
  {
    assert Get(InitialForm, MemberNo) == Some("");
  }

  /** Editing an optional field (the financial ones included) never changes
      whether the form is accepted. */
  lemma OptionalFieldsNeverBlock(form: Member, f: Field, v: string)
    requires !IsRequired(f)
    ensures Submit(InputChange(form, f, v)).Added? == Submit(form).Added?
  {
    var r := InputChange(form, f, v);
    forall g | IsRequired(g) ensures Get(r, g) == Get(form, g) {
    }
  }

  /** Filling the five required fields with any non-empty text, whitespace
      included, makes the form acceptable, and what is added is the form. */
  lemma RequiredFieldsSuffice(form: Member, no: string, name: string, kind: string, site: string, contact: string)
    requires no != "" && name != "" && kind != "" && site != "" && contact != ""
    ensures
      var filled := InputChange(InputChange(InputChange(InputChange(InputChange(
                      form, MemberNo, no), MemberName, name), MemberType, kind), SiteNo, site), ContactDetails, contact);
      Submit(filled) == Added(filled)
  {
  }

  /** Emptying any required field makes the form unacceptable. */
  lemma EmptyRequiredRejects(form: Member, f: Field)
    requires IsRequired(f)
    ensures Submit(InputChange(form, f, "")) == MissingRequiredFields
  {
  }
}
