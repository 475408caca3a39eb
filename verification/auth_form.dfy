/**
  The sign-in form (components/AuthForm.tsx): mode-dependent required-field
  validation, the username derived from the email, and the mode toggle.
 */
module AuthForm {
  import opened Wrappers
  import opened Types

  /** The error the form shows when a required field is empty. */
  const RequiredFieldsMissing := "Required fields missing."

  /** The form's React state. The username survives a mode toggle even though LOGIN does not show it. */
  datatype Form = Form(mode: AuthMode, email: string, password: string, username: string, error: string)

  /** The state the form starts in: LOGIN mode, every field empty. */
  function Init(): (f: Form)
    ensures f.mode == Login && f.email == [] && f.password == [] && f.username == [] && f.error == []
  {
    Form(Login, "", "", "", "")
  }

  /** The link under the form: LOGIN and REGISTER swap, nothing else changes. */
  function ToggleMode(f: Form): (f': Form)
    ensures f'.mode != f.mode
    ensures f' == f.(mode := f'.mode)
  {
    f.(mode := if f.mode == Login then Register else Login)
  }

  /** Toggling twice restores the form as it was. */
  lemma ToggleTwice(f: Form)
    ensures ToggleMode(ToggleMode(f)) == f
  {
  }

  /**
    `s.split(sep)`: the pieces of `s` between occurrences of `sep`; there is
    always at least one, none contains `sep`, and joining them with `sep`
    gives `s` back.
   */
  function Split(s: string, sep: char): (parts: seq<string>)
    ensures |parts| >= 1
    ensures forall i :: 0 <= i < |parts| ==> sep !in parts[i]
    ensures Join(parts, sep) == s
  {
    if s == [] then [[]]
    else
      var rest := Split(s[1..], sep);
      if s[0] == sep then
        assert Join([[]] + rest, sep) == [sep] + Join(rest, sep) by {
          assert ([[]] + rest)[1..] == rest;
        }
        [[]] + rest
      else
        JoinConsChar(s[0], rest, sep);
        [[s[0]] + rest[0]] + rest[1..]
  }

  /** The pieces put back together with `sep` between neighbours. */
  function Join(parts: seq<string>, sep: char): string
    requires |parts| >= 1
    decreases |parts|
  {
    if |parts| == 1 then parts[0] else parts[0] + [sep] + Join(parts[1..], sep)
  }

  /** A character put in front of the first piece comes out in front of the join. */
  lemma JoinConsChar(c: char, parts: seq<string>, sep: char)
    requires |parts| >= 1
    ensures Join([[c] + parts[0]] + parts[1..], sep) == [c] + Join(parts, sep)
  {
  }

  /** Splitting a join of pieces free of `sep` gives the same pieces back. */
  lemma {:induction false} SplitJoin(parts: seq<string>, sep: char)
    requires |parts| >= 1
    requires forall i :: 0 <= i < |parts| ==> sep !in parts[i]
    ensures Split(Join(parts, sep), sep) == parts
  {
    var parts' := Split(Join(parts, sep), sep);
    SplitUnique(parts', parts, sep);
  }

  /** Two sequences of `sep`-free pieces with the same join are the same pieces. */
  lemma {:induction false} SplitUnique(p: seq<string>, q: seq<string>, sep: char)
    requires |p| >= 1 && |q| >= 1
    requires forall i :: 0 <= i < |p| ==> sep !in p[i]
    requires forall i :: 0 <= i < |q| ==> sep !in q[i]
    requires Join(p, sep) == Join(q, sep)
    ensures p == q
    decreases |p| + |q|
  {
    JoinHead(p, sep);
    JoinHead(q, sep);
    var s := Join(p, sep);
    // Both first pieces run up to the first separator of s, so they coincide.
    assert |p[0]| == |q[0]| && (|p| == 1 <==> |q| == 1);
    assert p[0] == q[0] == s[..|p[0]|];
    if |p| > 1 {
      var n := |p[0]| + 1;
      assert Join(p[1..], sep) == s[n..] == Join(q[1..], sep);
      SplitUnique(p[1..], q[1..], sep);
      assert p == [p[0]] + p[1..];
      assert q == [q[0]] + q[1..];
    }
  }

  /** The first piece is a prefix of the join, followed by `sep` exactly when there are more pieces. */
  lemma JoinHead(parts: seq<string>, sep: char)
    requires |parts| >= 1
    ensures parts[0] <= Join(parts, sep)
    ensures |parts| == 1 ==> Join(parts, sep) == parts[0]
    ensures |parts| > 1 ==> |Join(parts, sep)| > |parts[0]| && Join(parts, sep)[|parts[0]|] == sep
    ensures |parts| > 1 ==> Join(parts, sep)[|parts[0]| + 1..] == Join(parts[1..], sep)
  {
  }

  /**
    `email.split('@')[0]`: the email up to its first '@', or all of it when it
    has none. It is a prefix of the email and holds no '@'.
   */
  function LocalPart(email: string): (u: string)
    ensures u <= email
    ensures '@' !in u
    ensures |u| < |email| ==> email[|u|] == '@'
  {
    var parts := Split(email, '@');
    JoinHead(parts, '@');
    parts[0]
  }

  /** The outcome of pressing submit: the form afterwards, and the user handed on, if any. */
  datatype Submission = Submission(form: Form, emitted: Option<User>)

  /** The fields the current mode requires: email and password always, the username in REGISTER. */
  predicate HasRequired(f: Form)
  {
    f.email != [] && f.password != [] && (f.mode == Register ==> f.username != [])
  }

  /**
    `handleSubmit`: with a required field empty the error is set and no user is
    emitted; otherwise the user is emitted with the entered email and the
    entered username, or the email's local part when none was entered.
   */
  function Submit(f: Form): (r: Submission)
    ensures r.emitted.None? <==> f.email == [] || f.password == [] || (f.mode == Register && f.username == [])
    ensures r.emitted.None? ==> r.form == f.(error := RequiredFieldsMissing)
    ensures r.emitted.Some? ==> r.form == f && r.emitted.value.email == f.email
    ensures r.emitted.Some? && f.username != [] ==> r.emitted.value.username == f.username
    ensures r.emitted.Some? && f.username == [] ==>
              var u := r.emitted.value.username;
              u <= f.email && '@' !in u && (|u| < |f.email| ==> f.email[|u|] == '@')
  {
    if !HasRequired(f) then Submission(f.(error := RequiredFieldsMissing), None)
    else Submission(f, Some(User(if f.username != [] then f.username else LocalPart(f.email), f.email)))
  }

  /** In LOGIN mode the username field never decides whether a submission is accepted. */
  lemma LoginIgnoresUsername(f: Form, username: string)
    requires f.mode == Login
    ensures Submit(f).emitted.Some? <==> Submit(f.(username := username)).emitted.Some?
  {
  }

  /** In REGISTER mode an empty username alone is enough to reject the submission. */
  lemma RegisterRequiresUsername(f: Form)
    requires f.mode == Register && f.username == []
    ensures Submit(f).emitted.None? && Submit(f).form.error == RequiredFieldsMissing
  {
  }
}
