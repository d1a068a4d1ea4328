/** sendDueTaskEmail (utils/sendEmail.js): render the due date, refuse an
    address that does not look like one, build the alert message and hand it
    to the mail transport, swallowing any transport error. */
module SendEmail {
  import opened Js
  import opened Models
  import Validation

  // ---------------------------------------------------------------------
  // The due date

  /** The third argument: a Date read from the database, or a plain value. */
  datatype DueArg = DateValue(ms: int) | Plain(v: JsValue)

  /** The date line of the message: the instant (its en-US rendering in the
      Africa/Lagos time zone is not modelled) or "Not Set". */
  datatype DateText = Formatted(ms: int) | NotSet

  /** `new Date(dueDate)`, then "Not Set" for an Invalid Date. */
  function FormatDue(due: DueArg, parse: string -> Option<int>): (r: DateText)
    ensures r.NotSet? <==> due.Plain? && NewDate(due.v, parse).None?
    ensures due.DateValue? ==> r == Formatted(due.ms)
    ensures due.Plain? && r.Formatted? ==> Some(r.ms) == NewDate(due.v, parse)
  {
    match due
    case DateValue(ms) => Formatted(ms)
    case Plain(v) =>
      match NewDate(v, parse)
      case None => NotSet
      case Some(ms) => Formatted(ms)
  }

  /** A missing date renders as "Not Set"; null renders as the epoch. */
  lemma MissingDueDateNotSet(parse: string -> Option<int>)
    ensures FormatDue(Plain(Undefined), parse) == NotSet
    ensures FormatDue(Plain(Null), parse) == Formatted(0)
  {
  }

  // ---------------------------------------------------------------------
  // The address guard /\S+@\S+\.\S+/.test(to)

  /** \S+ : one or more characters that are not whitespace. */
  predicate NonSpaceRun(t: string) {
    |t| > 0 && forall i | 0 <= i < |t| :: !IsJsWhitespace(t[i])
  }

  /** The pattern matches s[i..j], with the '@' at p and the '.' at q. */
  predicate MatchAt(s: string, i: int, p: int, q: int, j: int) {
    && 0 <= i < p < q < j <= |s|
    && NonSpaceRun(s[i..p]) && s[p] == '@'
    && NonSpaceRun(s[p + 1..q]) && s[q] == '.'
    && NonSpaceRun(s[q + 1..j])
  }

  /** The unanchored pattern matches somewhere in `s`: a run of
      non-whitespace, '@', a run, '.', and a run. */
  predicate AddressGuard(s: string) {
    exists i, p, q, j | 0 <= i < p < q < j <= |s| :: MatchAt(s, i, p, q, j)
  }

  /** An '@' at p with a non-whitespace character before it, then
      non-whitespace up to a '.' at q, then one more non-whitespace character. */
  predicate MarksAt(s: string, p: int, q: int) {
    && 0 < p < q < |s| - 1
    && s[p] == '@' && s[q] == '.' && !IsJsWhitespace(s[p - 1])
    && NonSpaceRun(s[p + 1..q]) && !IsJsWhitespace(s[q + 1])
  }

  /** The same test by its two marks. */
  predicate HasAddressMarks(s: string) {
    exists p, q | 0 < p < q < |s| - 1 :: MarksAt(s, p, q)
  }

  lemma MatchMarks(s: string, i: int, p: int, q: int, j: int)
    requires MatchAt(s, i, p, q, j)
    ensures MarksAt(s, p, q)
  {
    assert s[i..p][p - 1 - i] == s[p - 1];
    assert s[q + 1..j][0] == s[q + 1];
  }

  lemma MarksMatch(s: string, p: int, q: int)
    requires MarksAt(s, p, q)
    ensures MatchAt(s, p - 1, p, q, q + 2)
  {
    assert s[p - 1..p][0] == s[p - 1];
    assert s[q + 1..q + 2][0] == s[q + 1];
  }

  /** The runs only need to be one character long at their outer ends. */
  lemma AddressGuardMarks(s: string)
    ensures AddressGuard(s) <==> HasAddressMarks(s)
  {
    if AddressGuard(s) {
      var i, p, q, j :| 0 <= i < p < q < j <= |s| && MatchAt(s, i, p, q, j);
      MatchMarks(s, i, p, q, j);
    }
    if HasAddressMarks(s) {
      var p, q :| 0 < p < q < |s| - 1 && MarksAt(s, p, q);
      MarksMatch(s, p, q);
    }
  }

  /** The guard is unanchored: text around an address does not matter. */
  lemma GuardUnanchored(pre: string, s: string, post: string, p: int, q: int)
    requires MarksAt(s, p, q)
    ensures MarksAt(pre + s + post, |pre| + p, |pre| + q)
  {
    var t := pre + s + post;
    var n := |pre|;
    assert t[n + p + 1..n + q] == s[p + 1..q];
    assert t[n + p] == s[p] && t[n + q] == s[q];
    assert t[n + p - 1] == s[p - 1] && t[n + q + 1] == s[q + 1];
  }

  /** "x a@b.c y" passes: the pattern finds "a@b.c" inside it. */
  lemma GuardExample()
    ensures AddressGuard("x a@b.c y")
  {
    var s := "a@b.c";
    assert s[2..3] == "b";
    assert MarksAt(s, 1, 3);
    GuardUnanchored("x ", s, " y", 1, 3);
    assert "x " + s + " y" == "x a@b.c y";
    MarksMatch("x a@b.c y", 3, 5);
  }

  /** Whatever passes contains an '@' and, after it, a '.'. */
  lemma GuardNeedsAtThenDot(s: string)
    requires AddressGuard(s)
    ensures exists p, q | 0 <= p < q < |s| :: s[p] == '@' && s[q] == '.'
  {
    var i, p, q, j :| 0 <= i < p < q < j <= |s| && MatchAt(s, i, p, q, j);
  }

  /** Lowercasing keeps whitespace, '@' and '.' where they are. */
  lemma MarksIgnoreCase(s: string, p: int, q: int)
    requires MarksAt(ToLower(s), p, q)
    ensures MarksAt(s, p, q)
  {
    var t := ToLower(s);
    LowerKeepsWhitespace(s[p - 1]);
    LowerKeepsWhitespace(s[q + 1]);
    forall i | p + 1 <= i < q ensures !IsJsWhitespace(s[i]) {
      assert t[p + 1..q][i - p - 1] == t[i];
      LowerKeepsWhitespace(s[i]);
    }
    assert s[p] == '@' && s[q] == '.';
  }

  // ---------------------------------------------------------------------
  // Every address validateEmail accepts passes the guard

  /** The local part ends in a character that is not whitespace. */
  lemma LocalPartEnd(l: string)
    requires Validation.LocalPart(l)
    ensures |l| > 0 && !IsJsWhitespace(l[|l| - 1])
  {
    if Validation.DotJoined(l, Validation.AtomChar) {
      Validation.DotJoinedShape(l, Validation.AtomChar);
    }
  }

  lemma DigitGroupsHead(s: string, n: nat)
    requires Validation.DigitGroups(s, n)
    ensures |s| > 0 && Validation.Digit(s[0])
  {
    if n > 1 {
      var k := IndexOf(s, '.');
      assert s[..k][0] == s[0];
    }
  }

  /** Both domain forms hold a '.' with non-whitespace before it (back to the
      domain's start) and right after it. */
  lemma DomainDot(d: string) returns (k: nat)
    requires Validation.DomainPart(d)
    ensures 0 < k < |d| - 1 && d[k] == '.'
    ensures NonSpaceRun(d[..k]) && !IsJsWhitespace(d[k + 1])
  {
    if Validation.IpLiteral(d) {
      k := IpLiteralDot(d);
    } else {
      k := HostNameDot(d);
    }
  }

  lemma IpLiteralDot(d: string) returns (k: nat)
    requires Validation.IpLiteral(d)
    ensures 0 < k < |d| - 1 && d[k] == '.'
    ensures NonSpaceRun(d[..k]) && !IsJsWhitespace(d[k + 1])
  {
    var g := d[1..|d| - 1];
    var k' := FirstGroup(g);
    k := k' + 1;
    assert d[k] == g[k'] && d[k + 1] == g[k' + 1];
    assert d[..k] == [d[0]] + g[..k'];
  }

  /** The first group of a bracketed address: digits, then a dot, then a
      digit. */
  lemma FirstGroup(g: string) returns (k: nat)
    requires Validation.DigitGroups(g, 4)
    ensures 0 < k < |g| - 1 && g[k] == '.' && Validation.Digit(g[k + 1])
    ensures forall i | 0 <= i < k :: Validation.Digit(g[i])
  {
    k := IndexOf(g, '.');
    DigitGroupsHead(g[k + 1..], 3);
    assert forall i | 0 <= i < k :: g[..k][i] == g[i];
  }

  lemma HostNameDot(d: string) returns (k: nat)
    requires Validation.HostName(d)
    ensures 0 < k < |d| - 1 && d[k] == '.'
    ensures NonSpaceRun(d[..k]) && !IsJsWhitespace(d[k + 1])
  {
    k :| 0 < k < |d| && d[k] == '.' && Validation.AllOf(d[..k], Validation.LabelChar)
         && (Validation.TopLevel(d[k + 1..]) || Validation.HostName(d[k + 1..]));
    var rest := d[k + 1..];
    HostNameHead(rest);
    assert rest[0] == d[k + 1];
  }

  lemma HostNameHead(rest: string)
    requires Validation.TopLevel(rest) || Validation.HostName(rest)
    ensures |rest| > 0 && Validation.LabelChar(rest[0])
  {
    if !Validation.TopLevel(rest) {
      var k2 :| 0 < k2 < |rest| && rest[k2] == '.' && Validation.AllOf(rest[..k2], Validation.LabelChar)
                && (Validation.TopLevel(rest[k2 + 1..]) || Validation.HostName(rest[k2 + 1..]));
      assert rest[..k2][0] == rest[0];
    }
  }

  /** The '@' that splits a matching address and the domain's first dot. */
  lemma PatternMarks(t: string) returns (p: int, q: int)
    requires Validation.EmailPattern(t)
    ensures MarksAt(t, p, q)
  {
    p :| 0 <= p < |t| && Validation.SplitsAt(t, p);
    LocalEndAt(t, p);
    q := DomainDotAt(t, p);
  }

  lemma LocalEndAt(t: string, p: int)
    requires 0 <= p <= |t| && Validation.LocalPart(t[..p])
    ensures 0 < p && !IsJsWhitespace(t[p - 1])
  {
    LocalPartEnd(t[..p]);
    assert t[..p][p - 1] == t[p - 1];
  }

  lemma DomainDotAt(t: string, p: int) returns (q: int)
    requires 0 <= p < |t| && Validation.DomainPart(t[p + 1..])
    ensures p + 1 < q < |t| - 1 && t[q] == '.'
    ensures NonSpaceRun(t[p + 1..q]) && !IsJsWhitespace(t[q + 1])
  {
    var k := DomainDot(t[p + 1..]);
    q := p + 1 + k;
    ShiftDot(t, p + 1, k);
  }

  /** The dot found in the suffix t[i..], seen from t. */
  lemma ShiftDot(t: string, i: nat, k: nat)
    requires i <= |t| && 0 < k < |t| - i - 1
    requires t[i..][k] == '.' && NonSpaceRun(t[i..][..k]) && !IsJsWhitespace(t[i..][k + 1])
    ensures t[i + k] == '.' && NonSpaceRun(t[i..i + k]) && !IsJsWhitespace(t[i + k + 1])
  {
    assert t[i..][..k] == t[i..i + k];
  }

  /** An email that validateEmail accepts always passes the mail guard, so a
      user registered through signup is never refused an alert. */
  lemma ValidatedEmailPassesGuard(s: string)
    requires Validation.ValidateEmail(Str(s))
    ensures AddressGuard(s)
  {
    assert ToJsString(Str(s)) == s;
    var p, q := PatternMarks(ToLower(s));
    MarksIgnoreCase(s, p, q);
    MarksMatch(s, p, q);
  }

  // ---------------------------------------------------------------------
  // The message

  /** The fixed subject line. */
  const Subject: string := "\U{26A0}\U{FE0F} Your Task is Due!"

  /** The alert as sent: recipient, subject, and the task and due-date lines
      of the HTML body (the sender, read from the environment, is left out). */
  datatype Mail = Mail(to: string, subject: string, task: string, due: DateText)

  /** One call of sendDueTaskEmail, as the caller made it. */
  datatype Alert = Alert(to: string, task: string, due: DueArg)

  /** The message sendDueTaskEmail builds, or None when `to` is falsy or the
      guard refuses it. */
  function DueTaskMail(to: string, task: string, due: DueArg, parse: string -> Option<int>): (r: Option<Mail>)
    ensures r.Some? <==> to != "" && AddressGuard(to)
    ensures r.Some? ==> r.value.to == to && r.value.subject == Subject && r.value.task == task
    ensures r.Some? ==> r.value.due == FormatDue(due, parse)
  {
    if to == "" || !AddressGuard(to) then None
    else Some(Mail(to, Subject, task, FormatDue(due, parse)))
  }

  /** The transport and what it has been handed. */
  class Mailer {
    /** Messages passed to transporter.sendMail, in order. */
    var handed: seq<Mail>
    /** Messages the transport accepted. */
    var delivered: seq<Mail>
    /** Every call of sendDueTaskEmail, whatever its outcome. */
    ghost var calls: seq<Alert>

    constructor ()
      ensures handed == [] && delivered == [] && calls == []
    {
      handed, delivered, calls := [], [], [];
    }

    /** sendDueTaskEmail(to, taskDesc, dueDate). It always returns normally:
        a refused address returns before sending, and a transport failure
        (`transportFails`) is caught and logged. */
    method SendDueTaskEmail(to: string, task: string, due: DueArg, parse: string -> Option<int>, transportFails: bool)
      modifies this
      ensures calls == old(calls) + [Alert(to, task, due)]
      ensures DueTaskMail(to, task, due, parse).None? ==> handed == old(handed) && delivered == old(delivered)
      ensures DueTaskMail(to, task, due, parse).Some? ==>
                && handed == old(handed) + [DueTaskMail(to, task, due, parse).value]
                && delivered == old(delivered) + (if transportFails then [] else [DueTaskMail(to, task, due, parse).value])
    {
      calls := calls + [Alert(to, task, due)];
      var formatted := FormatDue(due, parse);
      if to == "" || !AddressGuard(to) {
        return;
      }
      var m := Mail(to, Subject, task, formatted);
      handed := handed + [m];
      if !transportFails {
        delivered := delivered + [m];
      }
    }
  }
}
