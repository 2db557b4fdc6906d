// PingCommand: the std::stoi validation of its count and the output
// loop of its execute.
module PingCommand {
  import opened Errors
  import opened Chars

  const IntMin: int := -0x8000_0000
  const IntMax: int := 0x7FFF_FFFF

  predicate InIntRange(n: int) {
    IntMin <= n <= IntMax
  }

  /** The decimal value of a string of digits, most significant first. */
  function DigitsValue(ds: string): (v: nat)
    requires forall k :: 0 <= k < |ds| ==> IsDigit(ds[k])
  {
    if ds == [] then 0
    else
      assert IsDigit(ds[|ds| - 1]);
      DigitsValue(ds[..|ds| - 1]) * 10 + (ds[|ds| - 1] as int - '0' as int)
  }

  /** std::stoi in base 10: skip leading whitespace, take an optional sign
      and the longest run of digits after it, ignore whatever follows, and
      fail (std::invalid_argument or std::out_of_range) when there is no
      digit or the value does not fit in a 32-bit int. */
  function Stoi(s: string): (r: Option<int>)
    ensures r.Some? ==> InIntRange(r.value)
  {
    var a := RunEnd(IsSpace, s, 0);
    var negative := a < |s| && s[a] == '-';
    var b := if a < |s| && (s[a] == '-' || s[a] == '+') then a + 1 else a;
    var e := RunEnd(IsDigit, s, b);
    if e == b then None
    else
      var magnitude: int := DigitsValue(s[b..e]);
      var v: int := if negative then -magnitude else magnitude;
      if InIntRange(v) then Some(v) else None
  }

  function DigitChar(d: nat): (c: char)
    requires d < 10
  {
    ('0' as int + d) as char
  }

  function NatToString(n: nat): (s: string)
    decreases n
  {
    if n < 10 then [DigitChar(n)] else NatToString(n / 10) + [DigitChar(n % 10)]
  }

  /** std::to_string of an int. */
  function IntToString(n: int): string {
    if n < 0 then "-" + NatToString(-n) else NatToString(n)
  }

  lemma {:induction false} NatToStringDigits(n: nat)
    ensures |NatToString(n)| > 0
    ensures forall k :: 0 <= k < |NatToString(n)| ==> IsDigit(NatToString(n)[k])
    ensures DigitsValue(NatToString(n)) == n
    decreases n
  {
    if n >= 10 {
      NatToStringDigits(n / 10);
      var s := NatToString(n);
      assert s[..|s| - 1] == NatToString(n / 10);
    }
  }

  /** std::stoi reads back what std::to_string wrote, whatever follows the
      number as long as it does not start with a digit. */
  lemma {:induction false} StoiOfIntToString(n: int, rest: string)
    requires InIntRange(n)
    requires rest == [] || !IsDigit(rest[0])
    ensures Stoi(IntToString(n) + rest) == Some(n)
  {
    var m: nat := if n < 0 then -n else n;
    NatToStringDigits(m);
    var ds := NatToString(m);
    var s := IntToString(n) + rest;
    var b := if n < 0 then 1 else 0;
    assert s[b..b + |ds|] == ds;
    RunEndAt(IsSpace, s, 0, 0);
    RunEndAt(IsDigit, s, b, b + |ds|);
  }

  /** "invalid" has no digit: PING with that count is refused. */
  lemma StoiRejectsWord()
    ensures Stoi("invalid") == None
  {
    RunEndAt(IsSpace, "invalid", 0, 0);
    RunEndAt(IsDigit, "invalid", 0, 0);
  }

  /** A negative count is accepted. */
  lemma StoiAcceptsNegative()
    ensures Stoi("-3") == Some(-3)
  {
    StoiOfIntToString(-3, "");
  }

  /** The first line PingCommand::execute prints. */
  function Header(user: string, times: int): string {
    "Send Ping to " + user + " (" + IntToString(times) + ")"
  }

  /** The lines one iteration of the loop prints. */
  function Round(user: string, isUser: bool): seq<string> {
    ["Sent Ping to " + user] + (if isUser then [user + " received a ping"] else [])
  }

  /** The lines of `times` iterations (none when times <= 0). */
  function Rounds(user: string, isUser: bool, times: int): seq<string>
    decreases if times < 0 then 0 else times
  {
    if times <= 0 then [] else Rounds(user, isUser, times - 1) + Round(user, isUser)
  }

  /** PingCommand::execute: the header, then `times` rounds; each round
      says the ping was sent and, only when the user existed when execute
      began, that it was received. */
  method Execute(user: string, times: int, isUser: bool) returns (lines: seq<string>)
    ensures lines == [Header(user, times)] + Rounds(user, isUser, times)
  {
    lines := [Header(user, times)];
    var i := 0;
    while i < times
      invariant times <= 0 ==> i == 0
      invariant times > 0 ==> 0 <= i <= times
      invariant lines == [Header(user, times)] + Rounds(user, isUser, i)
    {
      lines := lines + ["Sent Ping to " + user];
      if isUser {
        lines := lines + [user + " received a ping"];
      }
      i := i + 1;
    }
  }

  /** 1 + n * (2 if the user exists else 1) lines for n >= 0, the header
      alone for n <= 0. */
  lemma {:induction false} RoundsLength(user: string, isUser: bool, times: int)
    ensures |Rounds(user, isUser, times)| == (if times <= 0 then 0 else times * (if isUser then 2 else 1))
    decreases if times < 0 then 0 else times
  {
    if times > 0 {
      RoundsLength(user, isUser, times - 1);
    }
  }

  /** Round k (counting from 0) sits at offset k * width; a "received"
      line appears exactly when the user exists. */
  lemma {:induction false} RoundsAt(user: string, isUser: bool, times: int, k: nat)
    requires k < times
    ensures var w := if isUser then 2 else 1;
      |Rounds(user, isUser, times)| == times * w &&
      Rounds(user, isUser, times)[k * w] == "Sent Ping to " + user &&
      (isUser ==> Rounds(user, isUser, times)[k * w + 1] == user + " received a ping")
    decreases times
  {
    var w := if isUser then 2 else 1;
    RoundsLength(user, isUser, times);
    RoundsLength(user, isUser, times - 1);
    if k < times - 1 {
      RoundsAt(user, isUser, times - 1, k);
    } else {
      assert k * w == (times - 1) * w;
    }
  }

  /** Without the user no line of the output says that it received a ping. */
  lemma {:induction false} NoReceiptWithoutUser(user: string, times: int)
    ensures forall k :: 0 <= k < |Rounds(user, false, times)| ==>
      Rounds(user, false, times)[k] == "Sent Ping to " + user
    decreases if times < 0 then 0 else times
  {
    if times > 0 {
      NoReceiptWithoutUser(user, times - 1);
    }
  }

  /** The two cases of the test suite: 5 lines for an existing user and a
      count of 2, 4 lines for a missing user and a count of 3. */
  lemma PingLineCounts(user: string)
    ensures |[Header(user, 2)] + Rounds(user, true, 2)| == 5
    ensures |[Header(user, 3)] + Rounds(user, false, 3)| == 4
  {
    RoundsLength(user, true, 2);
    RoundsLength(user, false, 3);
  }
}
