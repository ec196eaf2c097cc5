/** One SMTP transaction with a remote host, whose replies are arbitrary. */
module Smtp {
  import opened Text

  datatype RecipientResult = RecipientResult(recipient: string, success: bool, code: int, permanent: bool,
      message: string)

  datatype DeliveryResult = DeliveryResult(
    success: bool, code: int, message: string, permanent: bool, remoteHost: string, recipients: seq<RecipientResult>)

  /** What a client command reports: nil, or an error with its text. */
  datatype Reply = Done | Refused(text: string)

  /** Everything one remote host answers in one transaction; `rcpt(i)` answers
      the i-th RCPT command. */
  datatype Dialogue = Dialogue(mail: Reply, rcpt: nat -> Reply, data: Reply, write: Reply, close: Reply)

  // ---------- reply codes ----------

  predicate Space(c: char) {
    c as int in {9, 11, 12, 13, 32}
  }

  predicate Digit(c: char) {
    '0' <= c <= '9'
  }

  function SkipSpaces(s: string): string {
    if s != "" && Space(s[0]) then SkipSpaces(s[1..]) else s
  }

  /** The value of the leading run of digits, read after `acc`. */
  function Number(s: string, acc: nat): nat {
    if s != "" && Digit(s[0]) then Number(s[1..], 10 * acc + (s[0] - '0') as nat) else acc
  }

  /** Scanning one decimal integer: blanks, an optional sign, then digits. */
  function ScanInt(s: string): Option<int> {
    var t := SkipSpaces(s);
    var u := if t != "" && (t[0] == '+' || t[0] == '-') then t[1..] else t;
    if u == "" || !Digit(u[0]) then None
    else if t[0] == '-' then Some(0 - Number(u, 0) as int)
    else Some(Number(u, 0))
  }

  function Code(text: string): (code: int)
    ensures code != 0
  {
    var scanned := if |text| >= 3 then ScanInt(text[..3]) else None;
    if scanned == None || scanned == Some(0) then 450 else scanned.value
  }

  predicate Permanent(text: string) {
    500 <= Code(text) < 600
  }

  /** The text starts with a reply code of the five hundreds. */
  predicate FiveHundred(text: string) {
    |text| >= 3 && text[0] == '5' && Digit(text[1]) && Digit(text[2])
  }

  /** Only a text that starts with three digits, the first a 5, is permanent. */
  lemma {:induction false} PermanentMeansFiveHundred(text: string)
    ensures Permanent(text) <==> FiveHundred(text)
  {
    if |text| >= 3 {
      var s := text[..3];
      assert s[1..][0] == text[1] && s[1..][1..][0] == text[2] && s[1..][1..][1..] == "";
      if Digit(s[0]) {
        NumberOfThree(s);
      } else {
        NumberOfTwo(s[1..]);
        NumberOfTwo(s[1..][1..]);
        NumberOfTwo("");
      }
    }
  }

  lemma {:induction false} NumberOfTwo(s: string)
    requires |s| <= 2
    ensures Number(s, 0) <= 99
    ensures ScanInt(s).Some? ==> ScanInt(s).value <= 99
  {
    if s != "" {
      NumberOfTwo(s[1..]);
      if |s| == 2 && Digit(s[0]) {
        var d := (s[0] - '0') as nat;
        assert s[1..][1..] == "" && Number(s, 0) == Number(s[1..], d);
        assert Number("", 10 * d + 9) <= 99;
      }
    }
  }

  lemma {:induction false} NumberOfThree(s: string)
    requires |s| == 3 && Digit(s[0])
    ensures 500 <= Number(s, 0) <= 599 <==> s[0] == '5' && Digit(s[1]) && Digit(s[2])
  {
    var d := (s[0] - '0') as nat;
    assert s[1..][1..] == [s[2]] && s[1..][1..][1..] == "";
    assert Number(s, 0) == Number(s[1..], d);
    if Digit(s[1]) {
      var e := 10 * d + (s[1] - '0') as nat;
      assert Number(s[1..], d) == Number([s[2]], e);
      if Digit(s[2]) {
        assert Number([s[2]], e) == Number("", 10 * e + (s[2] - '0') as nat);
      }
    }
  }

  /** Three leading digits are the code, unless they are zeros. */
  lemma {:induction false} ThreeDigitsAreTheCode(text: string)
    requires |text| >= 3 && Digit(text[0]) && Digit(text[1]) && Digit(text[2])
    ensures var value := 100 * (text[0] - '0') as int + 10 * (text[1] - '0') as int + (text[2] - '0') as int;
            Code(text) == if value == 0 then 450 else value
  {
    var s := text[..3];
    var d := (s[0] - '0') as nat;
    assert s[1..][1..] == [s[2]] && s[1..][1..][1..] == "";
    assert Number(s, 0) == Number(s[1..], d);
    var e := 10 * d + (s[1] - '0') as nat;
    assert Number(s[1..], d) == Number([s[2]], e);
    assert Number([s[2]], e) == Number("", 10 * e + (s[2] - '0') as nat);
  }

  /** A text that does not start like a number is a temporary error. */
  lemma NoNumberIsTemporary(text: string)
    requires text == "" || !(Digit(text[0]) || Space(text[0]) || text[0] in "+-")
    ensures Code(text) == 450 && !Permanent(text)
  {
    if |text| >= 3 { assert text[..3][0] == text[0]; }
  }

  // ---------- the transaction ----------

  predicate SomeAccepted(d: Dialogue, n: nat) {
    exists i :: 0 <= i < n && d.rcpt(i).Done?
  }

  /** The error of the DATA command, the message text or the final dot. */
  function TransferError(d: Dialogue): Reply {
    if d.data.Refused? then d.data else if d.write.Refused? then d.write else d.close
  }

  /** The remote host acknowledged the message for the recipients it accepted. */
  predicate Acknowledged(d: Dialogue, n: nat) {
    d.mail.Done? && SomeAccepted(d, n) && TransferError(d).Done?
  }

  function Failed(recipient: string, text: string): RecipientResult {
    RecipientResult(recipient, false, Code(text), Permanent(text), text)
  }

  function Outcome(d: Dialogue, recipients: seq<string>, i: nat): RecipientResult
    requires i < |recipients|
  {
    if d.rcpt(i).Refused? then Failed(recipients[i], d.rcpt(i).text)
    else if TransferError(d).Refused? then Failed(recipients[i], TransferError(d).text)
    else RecipientResult(recipients[i], true, 250, false, "")
  }

  predicate AllPermanent(d: Dialogue, n: nat) {
    forall i :: 0 <= i < n && d.rcpt(i).Refused? ==> Permanent(d.rcpt(i).text)
  }

  function Transaction(d: Dialogue, host: string, recipients: seq<string>): DeliveryResult {
    var n := |recipients|;
    if d.mail.Refused? then
      DeliveryResult(false, Code(d.mail.text), d.mail.text, Permanent(d.mail.text), host, [])
    else
      var outcomes := seq(n, i requires 0 <= i < n => Outcome(d, recipients, i));
      if !SomeAccepted(d, n) then
        var code := if AllPermanent(d, n) then 550 else 451;
        DeliveryResult(false, code, "No recipients accepted", AllPermanent(d, n), host, outcomes)
      else if TransferError(d).Refused? then
        var text := TransferError(d).text;
        DeliveryResult(false, Code(text), text, Permanent(text), host, outcomes)
      else
        DeliveryResult(true, 250, "Message accepted", false, host, outcomes)
  }

  /** The recipient slice after a failure: entries still without a code take the error's. */
  method MarkFailed(outcomes: seq<RecipientResult>, text: string) returns (marked: seq<RecipientResult>)
    ensures |marked| == |outcomes|
    ensures forall i :: 0 <= i < |outcomes| ==>
              marked[i] == if outcomes[i].code == 0
                  then Failed(outcomes[i].recipient, text).(success := outcomes[i].success) else outcomes[i]
    ensures forall i :: 0 <= i < |outcomes| && outcomes[i].code == 0 ==>
              marked[i].message == text && (marked[i].permanent <==> FiveHundred(text))
  {
    PermanentMeansFiveHundred(text);
    marked := outcomes;
    for i := 0 to |outcomes|
      invariant |marked| == |outcomes|
      invariant forall k :: i <= k < |outcomes| ==> marked[k] == outcomes[k]
      invariant forall k :: 0 <= k < i ==>
                  marked[k] == if outcomes[k].code == 0
                      then Failed(outcomes[k].recipient, text).(success := outcomes[k].success) else outcomes[k]
    {
      if marked[i].code == 0 {
        marked := marked[i := marked[i].(code := Code(text), permanent := Permanent(text), message := text)];
      }
    }
  }

  /** The recipient slice once RCPT is over: code 0 stands for "accepted so far". */
  predicate Collected(outcomes: seq<RecipientResult>, d: Dialogue, recipients: seq<string>, n: nat)
    requires n <= |recipients|
  {
    |outcomes| == n && forall i :: 0 <= i < n ==>
      outcomes[i] == if d.rcpt(i).Refused? then Failed(recipients[i], d.rcpt(i).text)
          else RecipientResult(recipients[i], false, 0, false, "")
  }

  method SmtpTransaction(d: Dialogue, host: string, recipients: seq<string>) returns (r: DeliveryResult, ok: bool)
    ensures r == Transaction(d, host, recipients)
    ensures ok == r.success
  {
    r := DeliveryResult(false, 0, "", false, host, []);
    if d.mail.Refused? {
      r := r.(code := Code(d.mail.text), permanent := Permanent(d.mail.text), message := d.mail.text);
      return r, false;
    }
    var n := |recipients|;
    var accepted := 0;
    var outcomes: seq<RecipientResult> := [];
    for i := 0 to n
      invariant Collected(outcomes, d, recipients, i)
      invariant accepted >= 0 && (accepted > 0 <==> SomeAccepted(d, i))
    {
      var outcome := RecipientResult(recipients[i], false, 0, false, "");
      match d.rcpt(i) {
        case Refused(text) =>
          outcome := outcome.(code := Code(text), permanent := Permanent(text), message := text);
        case Done =>
          accepted := accepted + 1;
      }
      outcomes := outcomes + [outcome];
    }
    if accepted == 0 {
      r := r.(permanent := true, code := 550, message := "No recipients accepted", recipients := outcomes);
      for i := 0 to n
        invariant r.permanent <==> AllPermanent(d, i)
        invariant r.code == if r.permanent then 550 else 451
        invariant r == DeliveryResult(false, r.code, "No recipients accepted", r.permanent, host, outcomes)
      {
        if !outcomes[i].permanent {
          r := r.(permanent := false, code := 451);
        }
      }
      assert outcomes == Transaction(d, host, recipients).recipients;
      return r, false;
    }
    var failure := if d.data.Refused? then d.data else if d.write.Refused? then d.write else d.close;
    if failure.Refused? {
      outcomes := MarkFailed(outcomes, failure.text);
      assert outcomes == Transaction(d, host, recipients).recipients;
      r := r.(code := Code(failure.text), permanent := Permanent(failure.text), message := failure.text,
          recipients := outcomes);
      return r, false;
    }
    for i := 0 to n
      invariant |outcomes| == n
      invariant forall k :: 0 <= k < i ==> outcomes[k] == Outcome(d, recipients, k)
      invariant forall k :: i <= k < n ==>
                  outcomes[k] == if d.rcpt(k).Refused? then Failed(recipients[k], d.rcpt(k).text)
                      else RecipientResult(recipients[k], false, 0, false, "")
    {
      if outcomes[i].code == 0 {
        outcomes := outcomes[i := outcomes[i].(success := true, code := 250)];
      }
    }
    assert outcomes == Transaction(d, host, recipients).recipients;
    return r.(success := true, code := 250, message := "Message accepted", recipients := outcomes), true;
  }

  /** A recipient is marked successful exactly when its RCPT was accepted and
      the message was acknowledged; every recipient keeps its place. */
  lemma TransactionMeaning(d: Dialogue, host: string, recipients: seq<string>)
    ensures var r := Transaction(d, host, recipients);
            && (r.success <==> Acknowledged(d, |recipients|))
            && (r.success ==> !r.permanent && r.recipients != [])
            && (r.recipients == [] || |r.recipients| == |recipients|)
            && (r.recipients == [] <==> d.mail.Refused? || recipients == [])
            && forall i :: 0 <= i < |r.recipients| ==>
                 && r.recipients[i].recipient == recipients[i]
                 && (r.recipients[i].success <==> Acknowledged(d, |recipients|) && d.rcpt(i).Done?)
                 && r.recipients[i].code != 0
  {
    assert SomeAccepted(d, |recipients|) ==> recipients != [];
  }

  /** The answers to DATA, the text and the final dot, in the order they come. */
  function Transfer(d: Dialogue): seq<Reply> {
    [d.data, d.write, d.close]
  }

  /** `text` is the first refusal among the replies. */
  predicate FirstRefusal(replies: seq<Reply>, text: string) {
    exists i :: 0 <= i < |replies| && replies[i] == Refused(text) && forall k :: 0 <= k < i ==> replies[k].Done?
  }

  lemma TransferErrorIsFirst(d: Dialogue)
    ensures TransferError(d).Done? <==> forall r :: r in Transfer(d) ==> r.Done?
    ensures forall text :: FirstRefusal(Transfer(d), text) <==> TransferError(d) == Refused(text)
  {
    var replies := Transfer(d);
    assert replies[0] == d.data && replies[1] == d.write && replies[2] == d.close;
    forall text
      ensures FirstRefusal(replies, text) <==> TransferError(d) == Refused(text)
    {
      if TransferError(d) == Refused(text) {
        var i := if d.data.Refused? then 0 else if d.write.Refused? then 1 else 2;
        assert replies[i] == Refused(text);
      }
    }
  }

  /** The text that decided that the i-th recipient failed: its own refusal, or
      the first refusal of the transfer. */
  predicate Decided(d: Dialogue, i: nat, text: string) {
    if d.rcpt(i).Refused? then text == d.rcpt(i).text else FirstRefusal(Transfer(d), text)
  }

  /** The host refused the message for good: at MAIL, for every recipient, or at
      the transfer, each time with a code of the five hundreds. */
  ghost predicate RefusedForever(d: Dialogue, n: nat) {
    || (d.mail.Refused? && FiveHundred(d.mail.text))
    || (d.mail.Done? && forall i :: 0 <= i < n ==> d.rcpt(i).Refused? && FiveHundred(d.rcpt(i).text))
    || (d.mail.Done? && (exists i :: 0 <= i < n && d.rcpt(i).Done?)
        && exists text :: FirstRefusal(Transfer(d), text) && FiveHundred(text))
  }

  /** What a failed recipient is told. */
  lemma {:induction false} FailedRecipientMeaning(d: Dialogue, host: string, recipients: seq<string>, i: nat)
    returns (text: string)
    requires d.mail.Done? && i < |recipients| && !Transaction(d, host, recipients).recipients[i].success
    ensures Decided(d, i, text) && forall other :: Decided(d, i, other) ==> other == text
    ensures var o := Transaction(d, host, recipients).recipients[i];
            o.message == text && o.code == Code(text) && (o.permanent <==> FiveHundred(text))
  {
    TransferErrorIsFirst(d);
    var o := Transaction(d, host, recipients).recipients[i];
    assert o == Outcome(d, recipients, i);
    text := if d.rcpt(i).Refused? then d.rcpt(i).text else TransferError(d).text;
    PermanentMeansFiveHundred(text);
  }

  /** When the result as a whole is permanent, and which code it has. */
  lemma {:induction false} ResultMeaning(d: Dialogue, host: string, recipients: seq<string>)
    ensures var r, n := Transaction(d, host, recipients), |recipients|;
            && r.remoteHost == host
            && (r.permanent <==> RefusedForever(d, n))
            && (r.success ==> r.code == 250)
            && (d.mail.Refused? ==> r.code == Code(d.mail.text) && r.message == d.mail.text)
            && (d.mail.Done? && !SomeAccepted(d, n) ==> r.code == if r.permanent then 550 else 451)
            && (d.mail.Done? && SomeAccepted(d, n) && !r.success ==>
                  FirstRefusal(Transfer(d), r.message) && r.code == Code(r.message))
  {
    TransferErrorIsFirst(d);
    if d.mail.Refused? { PermanentMeansFiveHundred(d.mail.text); }
    if TransferError(d).Refused? { PermanentMeansFiveHundred(TransferError(d).text); }
    forall i: nat
      ensures d.rcpt(i).Refused? ==> (Permanent(d.rcpt(i).text) <==> FiveHundred(d.rcpt(i).text))
    {
      if d.rcpt(i).Refused? { PermanentMeansFiveHundred(d.rcpt(i).text); }
    }
  }
}
