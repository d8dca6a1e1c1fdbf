/**
 * The contact form: three fields, each with an `invalid` class and an error display next
 * to it. Every validator first clears its field's error and then sets it only on failure;
 * a submission runs all three validators and, when all pass, hands on the trimmed values
 * and resets the form.
 */
module ContactForm {
  import opened Options
  import opened Text
  import opened EmailFormat

  const NameEmpty := "Name cannot be empty."
  const EmailEmpty := "Email cannot be empty."
  const EmailMalformed := "Please enter a valid email address."
  const MessageEmpty := "Message cannot be empty."

  datatype FieldKind = NameField | EmailField | MessageField

  /** The values a successful submission hands on (to the console log and the thank-you alert). */
  datatype FormData = FormData(name: string, email: string, message: string)

  /**
   * The message the validator of `kind` shows for `value`, or `None` when the value passes:
   * a blank value fails in every field, and each field fails only with its own messages.
   */
  function FieldError(kind: FieldKind, value: string): (e: Option<string>)
    ensures AllWhitespace(value) ==> e.Some?
    ensures e.Some? && kind == NameField ==> e.value == NameEmpty
    ensures e.Some? && kind == EmailField ==> e.value == EmailEmpty || e.value == EmailMalformed
    ensures e.Some? && kind == MessageField ==> e.value == MessageEmpty
  {
    TrimEmptyIff(value);
    var trimmed := Trim(value);
    match kind
    case NameField => if trimmed == "" then Some(NameEmpty) else None
    case EmailField =>
      if trimmed == "" then Some(EmailEmpty)
      else if !IsValidEmail(trimmed) then Some(EmailMalformed)
      else None
    case MessageField => if trimmed == "" then Some(MessageEmpty) else None
  }

  /** A name or a message fails exactly when it is nothing but whitespace, and then with its own message. */
  lemma RequiredFieldVerdict(kind: FieldKind, value: string)
    requires kind != EmailField
    ensures FieldError(kind, value).Some? <==> AllWhitespace(value)
    ensures FieldError(kind, value).Some? ==>
              FieldError(kind, value).value == (if kind == NameField then NameEmpty else MessageEmpty)
  {
    TrimEmptyIff(value);
  }

  /**
   * An e-mail value that is nothing but whitespace is reported as empty, whatever the
   * format check would say; any other value fails, as malformed, exactly when its trimmed
   * form does not have the shape local part, `@`, domain, `.`, tail.
   */
  lemma EmailFieldVerdict(value: string)
    ensures AllWhitespace(value) ==> FieldError(EmailField, value) == Some(EmailEmpty)
    ensures !AllWhitespace(value) ==>
              (FieldError(EmailField, value) == Some(EmailMalformed) <==> !EmailShape(Trim(value)))
    ensures FieldError(EmailField, value) == None <==> EmailShape(Trim(value))
  {
    TrimEmptyIff(value);
  }

  // E-mail examples on the raw field value, one per lemma.

  lemma EmptyEmailIsReportedEmpty()
    ensures FieldError(EmailField, "") == Some(EmailEmpty)
  {
  }

  lemma EmailWithoutDotIsMalformed()
    ensures FieldError(EmailField, "a@b") == Some(EmailMalformed)
  {
    TrimKeepsCleanEnds("a@b");
    RejectsMissingDot();
  }

  lemma EmailWithSpaceIsMalformed()
    ensures FieldError(EmailField, "a b@c.com") == Some(EmailMalformed)
  {
    TrimKeepsCleanEnds("a b@c.com");
    RejectsInnerSpace();
  }

  lemma PlainEmailPasses()
    ensures FieldError(EmailField, "a@b.com") == None
  {
    TrimKeepsCleanEnds("a@b.com");
    AcceptsPlainAddress();
  }

  /** Blanks around an address are trimmed before the format check. */
  lemma PaddedEmailPasses()
    ensures FieldError(EmailField, " a@b.com\n") == None
  {
    var s := " a@b.com\n";
    assert AllWhitespace(s[..1]) && AllWhitespace(s[8..]);
    TrimUnique(s, 1, 8);
    assert s[1..8] == "a@b.com";
    AcceptsPlainAddress();
  }

  /** An input or textarea element and the error display that follows it. */
  class FormField {
    var value: string
    /** The element carries the `invalid` class. */
    var invalid: bool
    /** The text of the error display. */
    var errorText: string

    constructor (value: string)
      ensures this.value == value && !invalid && errorText == ""
    {
      this.value := value;
      invalid := false;
      errorText := "";
    }

    /** The field shows exactly the verdict `e`: marked and explained on an error, clean otherwise. */
    ghost predicate Displays(e: Option<string>)
      reads this
    {
      invalid == e.Some? && errorText == (if e.Some? then e.value else "")
    }

    /** `setFieldError`. */
    method SetError(message: string)
      modifies this
      ensures invalid && errorText == message && value == old(value)
    {
      invalid := true;
      errorText := message;
    }

    /** `clearFieldError`. */
    method ClearError()
      modifies this
      ensures !invalid && errorText == "" && value == old(value)
    {
      invalid := false;
      errorText := "";
    }
  }

  class Form {
    const name: FormField
    const email: FormField
    const message: FormField

    ghost predicate Valid()
      reads this
    {
      name != email && email != message && name != message
    }

    constructor (name: FormField, email: FormField, message: FormField)
      requires name != email && email != message && name != message
      ensures Valid() && this.name == name && this.email == email && this.message == message
    {
      this.name := name;
      this.email := email;
      this.message := message;
    }

    /**
     * `validateName`, also the field's input listener. The field's display depends on its
     * value alone, which it leaves alone, so validating again changes nothing.
     */
    method ValidateName() returns (ok: bool)
      requires Valid()
      modifies name
      ensures name.value == old(name.value)
      ensures ok <==> FieldError(NameField, name.value) == None
      ensures name.Displays(FieldError(NameField, name.value))
    {
      name.ClearError();
      if Trim(name.value) == "" {
        name.SetError(NameEmpty);
        return false;
      }
      return true;
    }

    /** `validateEmail`, also the field's input listener: the empty check comes before the format check. */
    method ValidateEmail() returns (ok: bool)
      requires Valid()
      modifies email
      ensures email.value == old(email.value)
      ensures ok <==> FieldError(EmailField, email.value) == None
      ensures email.Displays(FieldError(EmailField, email.value))
    {
      email.ClearError();
      if Trim(email.value) == "" {
        email.SetError(EmailEmpty);
        return false;
      } else if !IsValidEmail(Trim(email.value)) {
        email.SetError(EmailMalformed);
        return false;
      }
      return true;
    }

    /** `validateMessage`, also the field's input listener. */
    method ValidateMessage() returns (ok: bool)
      requires Valid()
      modifies message
      ensures message.value == old(message.value)
      ensures ok <==> FieldError(MessageField, message.value) == None
      ensures message.Displays(FieldError(MessageField, message.value))
    {
      message.ClearError();
      if Trim(message.value) == "" {
        message.SetError(MessageEmpty);
        return false;
      }
      return true;
    }

    /** Every field passes its validator. */
    ghost predicate AllPass()
      reads this, name, email, message
    {
      && FieldError(NameField, name.value) == None
      && FieldError(EmailField, email.value) == None
      && FieldError(MessageField, message.value) == None
    }

    /**
     * The submit handler. All three validators run, whatever the earlier ones found. When
     * all pass, the trimmed values are handed on, the values are reset and every error is
     * cleared; otherwise no value changes and every field shows its own verdict.
     */
    method Submit() returns (sent: Option<FormData>)
      requires Valid()
      modifies name, email, message
      ensures sent.Some? <==> old(AllPass())
      ensures sent.Some? ==> sent.value == FormData(Trim(old(name.value)), Trim(old(email.value)), Trim(old(message.value)))
      ensures sent.Some? ==> name.value == "" && email.value == "" && message.value == ""
      ensures sent.Some? ==> name.Displays(None) && email.Displays(None) && message.Displays(None)
      ensures sent.None? ==>
                && name.value == old(name.value) && email.value == old(email.value) && message.value == old(message.value)
                && name.Displays(FieldError(NameField, name.value))
                && email.Displays(FieldError(EmailField, email.value))
                && message.Displays(FieldError(MessageField, message.value))
    {
      var isNameValid := ValidateName();
      var isEmailValid := ValidateEmail();
      var isMessageValid := ValidateMessage();
      if isNameValid && isEmailValid && isMessageValid {
        sent := Some(FormData(Trim(name.value), Trim(email.value), Trim(message.value)));
        name.value, email.value, message.value := "", "", "";
        name.ClearError();
        email.ClearError();
        message.ClearError();
      } else {
        sent := None;
      }
    }
  }

  /** The values of the sample submission are already trimmed and pass their validators. */
  lemma SampleValuesPass()
    ensures Trim("Jo") == "Jo" && Trim("jo@x.com") == "jo@x.com" && Trim("hi") == "hi"
    ensures FieldError(NameField, "Jo") == None
    ensures FieldError(EmailField, "jo@x.com") == None
    ensures FieldError(MessageField, "hi") == None
  {
    TrimKeepsCleanEnds("Jo");
    TrimKeepsCleanEnds("jo@x.com");
    TrimKeepsCleanEnds("hi");
    AcceptsSampleAddress();
  }

  /**
   * A sample submission: `Jo`, `jo@x.com` and `hi` pass, the trimmed values
   * are handed on and the form is left empty and free of errors.
   */
  method SubmitSample() returns (sent: Option<FormData>, form: Form)
    ensures form.Valid()
    ensures sent == Some(FormData("Jo", "jo@x.com", "hi"))
    ensures form.name.value == "" && form.email.value == "" && form.message.value == ""
    ensures !form.name.invalid && !form.email.invalid && !form.message.invalid
  {
    var name := new FormField("Jo");
    var email := new FormField("jo@x.com");
    var message := new FormField("hi");
    form := new Form(name, email, message);
    SampleValuesPass();
    sent := form.Submit();
  }
}
