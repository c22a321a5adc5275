/** `netlify/functions/api.ts`: the `/contact` endpoint of the site's serverless API.
    It checks that the first name, last name and phone were given, composes a
    plain-text and an HTML message that show every field, sends it, and reports
    success or failure to the form.

    Mail delivery is an oracle: whether `sendMail` resolves or throws.
 */
module ContactApi {
  import opened Text
  import opened Optional

  /** A value of the parsed request body as the handler uses it: whether JavaScript counts it
      as truthy, and the text a template literal renders it as. A missing field is undefined:
      falsy, rendered "undefined". */
  datatype Value = Value(truthy: bool, shown: string)

  /** A form field sent as text: truthy exactly when non-empty. */
  function FromText(s: string): (v: Value)
    ensures v.shown == s && (v.truthy <==> s != [])
  {
    Value(s != [], s)
  }

  /** The destructured fields of `req.body`. */
  datatype Form = Form(firstName: Value, lastName: Value, phone: Value, email: Value, message: Value)

  /** The message handed to `sendMail` (sender and recipient come from the environment). */
  datatype Mail = Mail(subject: string, text: string, html: string)

  /** The JSON reply and its HTTP status. */
  datatype Reply = Reply(status: int, success: bool, message: string)

  const MissingFields: string := "Please fill in all required fields (First Name, Last Name, Phone)"
  const Sent: string := "Thank you! Your message has been sent successfully."
  const SendError: string := "Sorry, there was an error sending your message. Please try again later."
  const NoEmail: string := "Not provided"
  const NoMessage: string := "No message provided"
  const SubjectPrefix: string := "New Contact Form Submission from "

  /** `v || fallback` inside a template literal: the value's text when truthy, else the fallback. */
  function OrDefault(v: Value, fallback: string): (s: string)
    ensures v.truthy ==> s == v.shown
    ensures !v.truthy ==> s == fallback
  {
    if v.truthy then v.shown else fallback
  }

  // ---------------------------------------------------------------- template literals

  /** The combined length of some strings. */
  function TotalLength(xs: seq<string>): nat {
    if |xs| == 0 then 0 else |xs[0]| + TotalLength(xs[1..])
  }

  /** A template literal: the constant parts with the values between them, in order. */
  function Interpolate(parts: seq<string>, values: seq<string>): (r: string)
    requires |parts| == |values| + 1
    ensures StartsWith(r, parts[0]) && EndsWith(r, parts[|values|])
    decreases |values|
  {
    if |values| == 0 then parts[0]
    else parts[0] + values[0] + Interpolate(parts[1..], values[1..])
  }

  /** Nothing is inserted or escaped: a template literal is exactly as long as its parts and
      values together. */
  lemma {:induction false} InterpolateLength(parts: seq<string>, values: seq<string>)
    requires |parts| == |values| + 1
    ensures |Interpolate(parts, values)| == TotalLength(parts) + TotalLength(values)
    decreases |values|
  {
    if |values| > 0 {
      InterpolateLength(parts[1..], values[1..]);
    }
  }

  /** Where the `k`-th value starts in `Interpolate(parts, values)`. */
  function Offset(parts: seq<string>, values: seq<string>, k: nat): (i: nat)
    requires |parts| == |values| + 1 && k < |values|
    ensures i >= |parts[k]|
    ensures i == TotalLength(parts[..k + 1]) + TotalLength(values[..k])
    decreases k
  {
    if k == 0 then
      assert parts[..1] == [parts[0]] && values[..0] == [];
      |parts[0]|
    else
      assert parts[..k + 1] == [parts[0]] + parts[1..][..k];
      assert values[..k] == [values[0]] + values[1..][..k - 1];
      |parts[0]| + |values[0]| + Offset(parts[1..], values[1..], k - 1)
  }

  /** `r` holds `value` at `i`, right after `part`. */
  predicate ShowsAt(r: string, part: string, value: string, i: int) {
    |part| <= i && i + |value| <= |r| && r[i - |part|..i] == part && r[i..i + |value|] == value
  }

  /** Text in front moves an occurrence along. */
  lemma ShowsAtShift(a: string, r: string, part: string, value: string, i: int)
    requires ShowsAt(r, part, value, i)
    ensures ShowsAt(a + r, part, value, |a| + i)
  {
    assert (a + r)[|a| + i - |part|..|a| + i] == r[i - |part|..i];
    assert (a + r)[|a| + i..|a| + i + |value|] == r[i..i + |value|];
  }

  /** Each value appears verbatim at its offset, right after the constant part before it. */
  lemma {:induction false} InterpolateHole(parts: seq<string>, values: seq<string>, k: nat)
    requires |parts| == |values| + 1 && k < |values|
    ensures ShowsAt(Interpolate(parts, values), parts[k], values[k], Offset(parts, values, k))
    decreases k
  {
    if k == 0 {
      InterpolateFirst(parts, values);
    } else {
      var rest := Interpolate(parts[1..], values[1..]);
      InterpolateHole(parts[1..], values[1..], k - 1);
      assert parts[1..][k - 1] == parts[k] && values[1..][k - 1] == values[k];
      assert Interpolate(parts, values) == (parts[0] + values[0]) + rest;
      ShowsAtShift(parts[0] + values[0], rest, parts[k], values[k], Offset(parts[1..], values[1..], k - 1));
    }
  }

  /** The first value comes right after the first part. */
  lemma InterpolateFirst(parts: seq<string>, values: seq<string>)
    requires |parts| == |values| + 1 && 0 < |values|
    ensures ShowsAt(Interpolate(parts, values), parts[0], values[0], |parts[0]|)
  {
    var r := parts[0] + values[0] + Interpolate(parts[1..], values[1..]);
    assert r[..|parts[0]|] == parts[0];
    assert r[|parts[0]|..|parts[0]| + |values[0]|] == values[0];
  }

  /** The values appear in the order given, each after the whole of the one before. */
  lemma {:induction false} OffsetsOrdered(parts: seq<string>, values: seq<string>, k: nat)
    requires |parts| == |values| + 1 && k + 1 < |values|
    ensures Offset(parts, values, k) + |values[k]| + |parts[k + 1]| == Offset(parts, values, k + 1)
    decreases k
  {
    if k > 0 {
      OffsetsOrdered(parts[1..], values[1..], k - 1);
    }
  }

  // ---------------------------------------------------------------- the message

  /** The two message templates, each as its constant parts around the five values: first
      name, last name, phone, email, message. */
  datatype Templates = Templates(text: seq<string>, html: seq<string>)

  predicate WellFormed(t: Templates) {
    |t.text| == 6 && |t.html| == 6
  }

  /** The templates of the endpoint, part for part. */
  const ApiTemplates: Templates := Templates(
    [
      "\n" +
        "New Contact Form Submission\n" +
        "============================\n" +
        "\n" +
        "Name: ",
      " ",
      "\n" +
        "Phone: ",
      "\n" +
        "Email: ",
      "\n" +
        "Message: ",
      "\n" +
        "\n" +
        "---\n" +
        "This message was sent from the Dutton Cavanaugh website contact form.\n" +
        "    "],
    [
      "\n" +
        "      <!DOCTYPE html>\n" +
        "      <html>\n" +
        "      <head>\n" +
        "        <style>\n" +
        "          body { font-family: Arial, sans-serif; line-height: 1.6; color: #333; }\n" +
        "          .container { max-width: 600px; margin: 0 auto; padding: 20px; }\n" +
        "          .header { background-color: #1a365d; color: white; padding: 20px; text-align: center; }\n" +
        "          .content { background-color: #f9f9f9; padding: 20px; border: 1px solid #ddd; }\n" +
        "          .field { margin-bottom: 15px; }\n" +
        "          .label { font-weight: bold; color: #1a365d; }\n" +
        "          .value { margin-top: 5px; }\n" +
        "          .footer { text-align: center; padding: 20px; font-size: 12px; color: #666; }\n" +
        "        </style>\n" +
        "      </head>\n" +
        "      <body>\n" +
        "        <div class=\"container\">\n" +
        "          <div class=\"header\">\n" +
        "            <h1>New Contact Form Submission</h1>\n" +
        "          </div>\n" +
        "          <div class=\"content\">\n" +
        "            <div class=\"field\">\n" +
        "              <div class=\"label\">Name:</div>\n" +
        "              <div class=\"value\">",
      " ",
      "</div>\n" +
        "            </div>\n" +
        "            <div class=\"field\">\n" +
        "              <div class=\"label\">Phone:</div>\n" +
        "              <div class=\"value\">",
      "</div>\n" +
        "            </div>\n" +
        "            <div class=\"field\">\n" +
        "              <div class=\"label\">Email:</div>\n" +
        "              <div class=\"value\">",
      "</div>\n" +
        "            </div>\n" +
        "            <div class=\"field\">\n" +
        "              <div class=\"label\">Message:</div>\n" +
        "              <div class=\"value\">",
      "</div>\n" +
        "            </div>\n" +
        "          </div>\n" +
        "          <div class=\"footer\">\n" +
        "            This message was sent from the Dutton Cavanaugh website contact form.\n" +
        "          </div>\n" +
        "        </div>\n" +
        "      </body>\n" +
        "      </html>\n" +
        "    "])

  /** Both bodies have a slot for each of the five values. */
  lemma ApiTemplatesWellFormed()
    ensures WellFormed(ApiTemplates)
  {
  }

  /** In the text body the first and last name are separated by one space, and every other
      value follows its label on a line of its own. */
  lemma ApiTextLabels()
    ensures ApiTemplates.text[1] == " "
    ensures EndsWith(ApiTemplates.text[0], "\nName: ")
    ensures ApiTemplates.text[2] == "\nPhone: "
    ensures ApiTemplates.text[3] == "\nEmail: "
    ensures ApiTemplates.text[4] == "\nMessage: "
  {
  }

  /** The five values both bodies show, in order, with the defaults for email and message. */
  function Shown(form: Form): (values: seq<string>)
    ensures |values| == 5
    ensures values[0] == form.firstName.shown && values[1] == form.lastName.shown
    ensures values[2] == form.phone.shown
    ensures values[3] == OrDefault(form.email, NoEmail)
    ensures values[4] == OrDefault(form.message, NoMessage)
  {
    [form.firstName.shown, form.lastName.shown, form.phone.shown,
     OrDefault(form.email, NoEmail), OrDefault(form.message, NoMessage)]
  }

  /** `New Contact Form Submission from <first> <last>`. */
  function Subject(form: Form): (s: string)
    ensures StartsWith(s, SubjectPrefix)
    ensures |s| == |SubjectPrefix| + |form.firstName.shown| + 1 + |form.lastName.shown|
  {
    var s := SubjectPrefix + (form.firstName.shown + " " + form.lastName.shown);
    assert s[..|SubjectPrefix|] == SubjectPrefix;
    s
  }

  /** The mail composed from a valid form with templates `t`. */
  function Compose(form: Form, t: Templates): (m: Mail)
    requires WellFormed(t)
    ensures m.subject == Subject(form)
  {
    Mail(Subject(form), Interpolate(t.text, Shown(form)), Interpolate(t.html, Shown(form)))
  }

  /** The subject gives the names back: after the fixed prefix, the text up to the first space
      is the first name and the rest the last name, when the first name has no space. */
  lemma SubjectNames(form: Form)
    requires ' ' !in form.firstName.shown
    ensures var s := Subject(form);
      && BeforeFirst(s[|SubjectPrefix|..], ' ') == form.firstName.shown
      && AfterFirst(s[|SubjectPrefix|..], ' ') == form.lastName.shown
  {
    var s := Subject(form);
    var f := form.firstName.shown;
    var l := form.lastName.shown;
    assert s[|SubjectPrefix|..] == f + [' '] + l;
    CutAt(f, ' ', l);
  }

  /** A first name with a space cannot be told apart from a last name starting with it. */
  lemma SubjectNameAmbiguous(form: Form)
    requires form.firstName.shown == "Mary" && form.lastName.shown == "Ann Lee"
    ensures Subject(form) ==
            Subject(form.(firstName := FromText("Mary Ann"), lastName := FromText("Lee")))
  {
    assert "Mary" + " " + "Ann Lee" == "Mary Ann" + " " + "Lee";
  }

  /** In both bodies each of the five values appears verbatim right after the constant part
      that labels it; `OffsetsOrdered` puts them in the order first name, last name, phone,
      email, message. */
  lemma ComposeShowsField(form: Form, t: Templates, k: nat)
    requires WellFormed(t) && k < 5
    ensures ShowsAt(Compose(form, t).text, t.text[k], Shown(form)[k], Offset(t.text, Shown(form), k))
    ensures ShowsAt(Compose(form, t).html, t.html[k], Shown(form)[k], Offset(t.html, Shown(form), k))
  {
    InterpolateHole(t.text, Shown(form), k);
    InterpolateHole(t.html, Shown(form), k);
  }

  // ---------------------------------------------------------------- the handler

  /** The `/contact` handler with templates `t` (the endpoint's are `ApiTemplates`).
      `send(m)` says whether `sendMail` resolves for `m`; a rejected send, like anything else
      thrown in the `try`, gives 500. The second component is the mail handed to `sendMail`, if
      it was reached. */
  function Contact(form: Form, t: Templates, send: Mail -> bool): (r: (Reply, Option<Mail>))
    requires WellFormed(t)
    ensures r.0.status == 400 <==>
      !(form.firstName.truthy && form.lastName.truthy && form.phone.truthy)
    ensures r.0.status == 400 ==> r.1.None? && r.0.message == MissingFields
    ensures r.0.status != 400 ==> r.1 == Some(Compose(form, t))
    ensures r.0.success <==> r.1.Some? && send(r.1.value)
    ensures r.0.success ==> r.0.status == 200 && r.0.message == Sent
    ensures r.0.status == 500 <==> r.1.Some? && !send(r.1.value)
    ensures r.0.status == 500 ==> r.0.message == SendError
    ensures r.0.status in {200, 400, 500}
  {
    if !form.firstName.truthy || !form.lastName.truthy || !form.phone.truthy then
      (Reply(400, false, MissingFields), None)
    else
      var mail := Compose(form, t);
      if send(mail) then (Reply(200, true, Sent), Some(mail))
      else (Reply(500, false, SendError), Some(mail))
  }

  /** Optional fields left empty are shown as the defaults, and a form whose required texts are
      non-empty is handed to `sendMail`. */
  lemma ContactDefaults(first: string, last: string, phone: string, t: Templates, send: Mail -> bool)
    requires first != [] && last != [] && phone != [] && WellFormed(t)
    ensures var form := Form(FromText(first), FromText(last), FromText(phone), FromText([]), FromText([]));
      && Contact(form, t, send).1 == Some(Compose(form, t))
      && Shown(form)[3] == NoEmail && Shown(form)[4] == NoMessage
  {
  }
}
