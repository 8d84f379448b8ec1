/**
 * The submit handler of the contact form (script.js): the four fields are
 * trimmed, any empty one gives the "fill in all required fields" error, an
 * e-mail address not matching `^[^\s@]+@[^\s@]+\.[^\s@]+$` gives the "valid
 * email address" error, and otherwise the thank-you message is shown and the
 * form is reset.
 */
module ContactForm {

  /**
   * The characters of ECMAScript's WhiteSpace and LineTerminator
   * productions: what `String.prototype.trim` strips and what `\s` matches.
   */
  predicate IsSpace(c: char) {
    || c == '\t' || c == '\n' || c == '\U{000B}' || c == '\U{000C}' || c == '\r'
    || c == ' ' || c == '\U{00A0}' || c == '\U{1680}'
    || ('\U{2000}' <= c <= '\U{200A}')
    || c == '\U{2028}' || c == '\U{2029}' || c == '\U{202F}' || c == '\U{205F}'
    || c == '\U{3000}' || c == '\U{FEFF}'
  }

  /**
   * No white space character is '@', '.' or '/', and all of them lie in the
   * Basic Multilingual Plane (one UTF-16 code unit each).
   */
  lemma SpaceChars(c: char)
    requires IsSpace(c)
    ensures c != '@' && c != '.' && c != '/'
    ensures (c as int) < 0x1_0000
  {
  }

  /** Every character of `s` is white space (an empty `s` included). */
  predicate Blank(s: string) {
    forall k :: 0 <= k < |s| ==> IsSpace(s[k])
  }

  /** `s` without its leading white space. */
  function TrimStart(s: string): (r: string)
    ensures |r| <= |s| && r == s[|s| - |r|..]
    ensures Blank(s[..|s| - |r|])
    ensures r == [] || !IsSpace(r[0])
  {
    if s != [] && IsSpace(s[0]) then
      var r := TrimStart(s[1..]);
      var n := |s| - |r|;
      assert r == s[1..][n - 1..] == s[n..];
      assert forall k :: 1 <= k < n ==> s[..n][k] == s[1..][..n - 1][k - 1];
      r
    else
      s
  }

  /** `s` without its trailing white space. */
  function TrimEnd(s: string): (r: string)
    ensures |r| <= |s| && r == s[..|r|]
    ensures Blank(s[|r|..])
    ensures r == [] || !IsSpace(r[|r| - 1])
  {
    if s != [] && IsSpace(s[|s| - 1]) then
      var r := TrimEnd(s[..|s| - 1]);
      assert r == s[..|s| - 1][..|r|] == s[..|r|];
      assert forall k :: 0 <= k < |s| - 1 - |r| ==> s[|r|..][k] == s[..|s| - 1][|r|..][k];
      r
    else
      s
  }

  /** `r` is `s` with the blank prefix `s[..k]` and a blank suffix removed. */
  predicate StrippedAt(s: string, r: string, k: int) {
    0 <= k <= |s| - |r| && Blank(s[..k]) && s[k..k + |r|] == r && Blank(s[k + |r|..])
  }

  /** `String.prototype.trim`: white space removed from both ends. */
  function Trim(s: string): (r: string)
    ensures |r| <= |s|
    ensures r == [] || (!IsSpace(r[0]) && !IsSpace(r[|r| - 1]))
    ensures exists k :: StrippedAt(s, r, k)
  {
    var u := TrimStart(s);
    var r := TrimEnd(u);
    var k := |s| - |u|;
    assert s[k..k + |r|] == u[..|r|];
    assert s[k + |r|..] == u[|r|..];
    assert StrippedAt(s, r, k);
    r
  }

  /** A field is empty after trimming exactly when it holds nothing but white space. */
  lemma TrimEmptyIffBlank(s: string)
    ensures Trim(s) == [] <==> Blank(s)
  {
    var u := TrimStart(s);
    if Trim(s) == [] {
      assert Blank(u[0..]);
      assert s[..|s|] == s;
    }
  }

  /** `[^\s@]*`: no white space and no '@'. */
  ghost predicate Plain(s: string) {
    forall k :: 0 <= k < |s| ==> !IsSpace(s[k]) && s[k] != '@'
  }

  /** `t[j]` is a '.' with at least one character after it. */
  ghost predicate DotAt(t: string, j: int) {
    0 <= j < |t| - 1 && t[j] == '.'
  }

  /** `[^\s@]+\.[^\s@]+`: plain, with a '.' that has a character on each side. */
  ghost predicate DomainPart(t: string) {
    Plain(t) && exists j :: 0 < j && DotAt(t, j)
  }

  /** `s[i]` is an '@' with a plain text before it and a domain part after it. */
  ghost predicate AtSplit(s: string, i: int) {
    0 <= i < |s| && s[i] == '@' && Plain(s[..i]) && DomainPart(s[i + 1..])
  }

  /** `^[^\s@]+@[^\s@]+\.[^\s@]+$`: a non-empty plain local part, one '@', a domain part. */
  ghost predicate EmailPattern(s: string) {
    exists i :: 0 < i && AtSplit(s, i)
  }

  /**
   * States of a left-to-right matcher for the e-mail pattern: before and
   * inside the local part, right after the '@', inside the domain before a
   * usable '.', right after one, after a character following one, and failed.
   */
  datatype ScanState = Local0 | Local | Domain0 | Domain | Dot | Tail | Reject

  /** The matcher's transition on one character. */
  function Next(q: ScanState, c: char): (r: ScanState)
    ensures q == Reject || IsSpace(c) ==> r == Reject
    ensures c == '@' && r != Reject ==> q == Local && r == Domain0
    ensures r == Tail ==> q == Dot || q == Tail
  {
    if IsSpace(c) then Reject
    else match q
      case Local0 => if c == '@' then Reject else Local
      case Local => if c == '@' then Domain0 else Local
      case Domain0 => if c == '@' then Reject else Domain
      case Domain => if c == '@' then Reject else if c == '.' then Dot else Domain
      case Dot => if c == '@' then Reject else Tail
      case Tail => if c == '@' then Reject else Tail
      case Reject => Reject
  }

  /** The state reached from `q` after reading `s`. */
  function Scan(q: ScanState, s: string): (r: ScanState)
    ensures q == Reject ==> r == Reject
    ensures r == Tail && q != Tail && q != Dot ==> exists k :: 0 <= k < |s| && s[k] == '.'
    ensures r == Tail ==> forall k :: 0 <= k < |s| ==> !IsSpace(s[k])
    decreases |s|
  {
    if s == [] then q
    else
      var r := Scan(Next(q, s[0]), s[1..]);
      assert forall k :: 0 <= k < |s| - 1 ==> s[1..][k] == s[k + 1];
      r
  }

  /** `emailRegex.test(s)`. */
  predicate EmailOk(s: string)
    ensures EmailOk(s) ==> forall k :: 0 <= k < |s| ==> !IsSpace(s[k])
    ensures EmailOk(s) ==> exists k :: 0 <= k < |s| && s[k] == '.'
  {
    Scan(Local0, s) == Tail
  }

  /** What the rest of the input must look like for the matcher, now in state `q`, to accept. */
  ghost predicate Accepts(q: ScanState, s: string) {
    match q
    case Local0 => EmailPattern(s)
    case Local => exists i :: AtSplit(s, i)
    case Domain0 => DomainPart(s)
    case Domain => Plain(s) && exists j :: DotAt(s, j)
    case Dot => Plain(s) && |s| > 0
    case Tail => Plain(s)
    case Reject => false
  }

  /** A string is plain exactly when its first character and the rest are. */
  lemma PlainCons(s: string)
    requires s != []
    ensures Plain(s) <==> !IsSpace(s[0]) && s[0] != '@' && Plain(s[1..])
  {
    if !IsSpace(s[0]) && s[0] != '@' && Plain(s[1..]) {
      forall k | 0 < k < |s|
        ensures !IsSpace(s[k]) && s[k] != '@'
      {
        assert s[k] == s[1..][k - 1];
      }
    }
  }

  /** In the local part: an '@' at position `i > 0` of `s` is one at `i - 1` of the rest. */
  lemma LocalStep(s: string, i: int)
    requires s != [] && !IsSpace(s[0]) && s[0] != '@'
    ensures 0 < i ==> (AtSplit(s, i) <==> AtSplit(s[1..], i - 1))
    ensures i == 0 ==> !AtSplit(s, i)
  {
    var t := s[1..];
    if 0 < i < |s| {
      PlainCons(s[..i]);
      assert s[..i][1..] == t[..i - 1];
      assert s[i + 1..] == t[i..];
    }
  }

  /** Reading an '@' inside the local part: the rest must be a domain part. */
  lemma AtStep(s: string)
    requires s != [] && s[0] == '@'
    ensures Accepts(Local, s) <==> DomainPart(s[1..])
  {
    if Accepts(Local, s) {
      var i :| AtSplit(s, i);
      assert i == 0;
    }
    if DomainPart(s[1..]) {
      assert s[..0] == [];
      assert AtSplit(s, 0);
    }
  }

  /** Inside the domain: a '.' at position `j > 0` of `s` is one at `j - 1` of the rest. */
  lemma DotStep(s: string, j: int)
    requires s != []
    ensures 0 < j ==> (DotAt(s, j) <==> DotAt(s[1..], j - 1))
  {
  }

  /** One character read by the matcher: acceptance of the input is acceptance of the rest from the next state. */
  lemma {:induction false} ScanStep(q: ScanState, s: string)
    requires s != []
    ensures Accepts(q, s) <==> Accepts(Next(q, s[0]), s[1..])
  {
    var c, t := s[0], s[1..];
    PlainCons(s);
    match q
    case Local0 =>
      if EmailPattern(s) {
        var i :| 0 < i && AtSplit(s, i);
        PlainCons(s[..i]);
        assert s[..i][0] == c;
        if !IsSpace(c) && c != '@' {
          LocalStep(s, i);
        }
      }
      if !IsSpace(c) && c != '@' && Accepts(Local, t) {
        var i :| AtSplit(t, i);
        LocalStep(s, i + 1);
      }
    case Local =>
      if c == '@' {
        AtStep(s);
      } else {
        if Accepts(Local, s) {
          var i :| AtSplit(s, i);
          PlainCons(s[..i]);
          assert s[..i][0] == c;
          if !IsSpace(c) {
            LocalStep(s, i);
          }
        }
        if !IsSpace(c) && Accepts(Local, t) {
          var i :| AtSplit(t, i);
          LocalStep(s, i + 1);
        }
      }
    case Domain0 =>
      if DomainPart(s) {
        var j :| 0 < j && DotAt(s, j);
        DotStep(s, j);
      }
      if Accepts(Next(q, c), t) {
        var j :| DotAt(t, j);
        DotStep(s, j + 1);
      }
    case Domain =>
      if c == '.' {
        if |t| > 0 {
          assert DotAt(s, 0);
        }
      } else {
        if Accepts(Domain, s) {
          var j :| DotAt(s, j);
          DotStep(s, j);
        }
        if Accepts(Next(q, c), t) {
          var j :| DotAt(t, j);
          DotStep(s, j + 1);
        }
      }
    case Dot =>
    case Tail =>
    case Reject =>
  }

  /** The matcher accepts from `q` exactly the inputs described by `Accepts(q, _)`. */
  lemma {:induction false} ScanCorrect(q: ScanState, s: string)
    ensures Scan(q, s) == Tail <==> Accepts(q, s)
    decreases |s|
  {
    if s != [] {
      ScanStep(q, s);
      ScanCorrect(Next(q, s[0]), s[1..]);
    }
  }

  /** `emailRegex.test` accepts exactly the strings of the e-mail pattern. */
  lemma EmailOkIffPattern(s: string)
    ensures EmailOk(s) <==> EmailPattern(s)
  {
    ScanCorrect(Local0, s);
  }

  /**
   * Addresses the pattern rejects: one containing white space, one without
   * '@', one with two '@', one with no '.' after its '@'.
   */
  lemma EmailRejects(s: string)
    ensures (exists k :: 0 <= k < |s| && IsSpace(s[k])) ==> !EmailOk(s)
    ensures (forall k :: 0 <= k < |s| ==> s[k] != '@') ==> !EmailOk(s)
    ensures (exists a, b :: 0 <= a < b < |s| && s[a] == '@' && s[b] == '@') ==> !EmailOk(s)
    ensures (forall a, b :: 0 <= a < b < |s| && s[a] == '@' ==> s[b] != '.') ==> !EmailOk(s)
  {
    EmailOkIffPattern(s);
    if EmailPattern(s) {
      var i :| 0 < i && AtSplit(s, i);
      var d := s[i + 1..];
      var j :| 0 < j && DotAt(d, j);
      assert s[i + 1 + j] == '.';
      forall k | 0 <= k < |s| && k != i
        ensures !IsSpace(s[k]) && s[k] != '@'
      {
        if k < i {
          assert s[k] == s[..i][k];
        } else {
          assert s[k] == d[k - i - 1];
        }
      }
      assert !IsSpace(s[i]);
    }
  }

  /** A short address that is accepted. */
  lemma EmailAcceptsExample()
    ensures EmailOk("a@b.c")
  {
  }

  /** The four fields of the form, as typed. */
  datatype Fields = Fields(name: string, email: string, subject: string, message: string)

  /** The class of the message shown under the form. */
  datatype Kind = Error | Success

  /** What one submission shows, and the fields it leaves in the form. */
  datatype Outcome = Outcome(text: string, kind: Kind, after: Fields)

  const MissingFieldsText: string := "Please fill in all required fields."
  const InvalidEmailText: string := "Please enter a valid email address."
  const ThanksText: string := "Thank you for your message! I will get back to you soon."

  /** The fields after `contactForm.reset()`: every input back to its (empty) default. */
  const Cleared: Fields := Fields("", "", "", "")

  /** Some field is empty once trimmed. */
  predicate AnyBlank(f: Fields) {
    Blank(f.name) || Blank(f.email) || Blank(f.subject) || Blank(f.message)
  }

  /**
   * The submit handler.  An empty field wins over a bad address; success is
   * the only outcome that clears the form.
   */
  function Submit(f: Fields): (r: Outcome)
    ensures AnyBlank(f) ==> r == Outcome(MissingFieldsText, Error, f)
    ensures !AnyBlank(f) && !EmailPattern(Trim(f.email)) ==> r == Outcome(InvalidEmailText, Error, f)
    ensures r.kind == Success <==> !AnyBlank(f) && EmailPattern(Trim(f.email))
    ensures r.kind == Success ==> r == Outcome(ThanksText, Success, Cleared)
  {
    var name, email, subject, message := Trim(f.name), Trim(f.email), Trim(f.subject), Trim(f.message);
    TrimEmptyIffBlank(f.name);
    TrimEmptyIffBlank(f.email);
    TrimEmptyIffBlank(f.subject);
    TrimEmptyIffBlank(f.message);
    EmailOkIffPattern(email);
    if name == [] || email == [] || subject == [] || message == [] then
      Outcome(MissingFieldsText, Error, f)
    else if !EmailOk(email) then
      Outcome(InvalidEmailText, Error, f)
    else
      Outcome(ThanksText, Success, Cleared)
  }
}
