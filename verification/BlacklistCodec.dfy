/** The '|'-separated text form of a blacklist entry (pkg/auth/token_blacklist.go, lines 563-623). */
module BlacklistCodec {
  import opened Wrappers
  import Decimal

  const SEP: char := '|'

  /** A point in time: Unix seconds and the nanoseconds within that second. */
  datatype Instant = Instant(seconds: int, nanos: nat)

  datatype Entry = Entry(
    tokenHash: string,
    userId: string,
    reason: string,
    blacklistedAt: Instant,
    expiresAt: Instant,
    ipAddress: string,
    userAgent: string)

  predicate Int64(i: int) {
    Decimal.INT64_MIN <= i <= Decimal.INT64_MAX
  }

  function Marshal(e: Entry): string {
    e.tokenHash + [SEP] + (e.userId + [SEP] + (e.reason + [SEP] + (
      Decimal.PrintInt(e.blacklistedAt.seconds) + [SEP] + (Decimal.PrintInt(e.expiresAt.seconds) + [SEP] + (
        e.ipAddress + [SEP] + e.userAgent)))))
  }

  /** `strings.Split(s, "|")`. */
  function Split(s: string): (parts: seq<string>)
    ensures |parts| == 1 + Bars(s)
  {
    if s == "" then [""]
    else
      var rest := Split(s[1..]);
      if s[0] == SEP then [""] + rest else [[s[0]] + rest[0]] + rest[1..]
  }

  /** How many separators a text contains. */
  function Bars(s: string): nat {
    if s == "" then 0 else (if s[0] == SEP then 1 else 0) + Bars(s[1..])
  }

  lemma {:induction false} BarsConcat(a: string, b: string)
    ensures Bars(a + b) == Bars(a) + Bars(b)
  {
    if a == "" {
      assert a + b == b;
    } else {
      assert (a + b)[1..] == a[1..] + b;
      BarsConcat(a[1..], b);
    }
  }

  lemma {:induction false} NoBars(a: string)
    ensures Bars(a) == 0 <==> SEP !in a
    decreases |a|
  {
    if a != "" {
      NoBars(a[1..]);
    }
  }

  lemma {:induction false} SplitFirst(a: string, b: string)
    requires SEP !in a
    ensures Split(a + [SEP] + b) == [a] + Split(b)
    decreases |a|
  {
    var s := a + [SEP] + b;
    if a == "" {
      assert s[1..] == b;
    } else {
      assert s[1..] == a[1..] + [SEP] + b;
      SplitFirst(a[1..], b);
      assert a == [a[0]] + a[1..];
    }
  }

  lemma {:induction false} SplitLast(a: string)
    requires SEP !in a
    ensures Split(a) == [a]
    decreases |a|
  {
    if a != "" {
      SplitLast(a[1..]);
      assert a == [a[0]] + a[1..];
    }
  }

  /** `unmarshalEntry` into `target`: None on a wrong number of parts; a timestamp that does not parse
      leaves the target's own value in place. */
  function Unmarshal(data: string, target: Entry): (r: Option<Entry>) {
    var p := Split(data);
    if |p| != 7 then None
    else
      var at := Decimal.ParseInt64(p[3]);
      var exp := Decimal.ParseInt64(p[4]);
      Some(Entry(p[0], p[1], p[2],
                 if at.Some? then Instant(at.value, 0) else target.blacklistedAt,
                 if exp.Some? then Instant(exp.value, 0) else target.expiresAt,
                 p[5], p[6]))
  }

  predicate FieldsClean(e: Entry) {
    SEP !in e.tokenHash && SEP !in e.userId && SEP !in e.reason && SEP !in e.ipAddress && SEP !in e.userAgent
  }

  function ToSeconds(e: Entry): Entry {
    e.(blacklistedAt := e.blacklistedAt.(nanos := 0), expiresAt := e.expiresAt.(nanos := 0))
  }

  lemma PrintedIntIsClean(i: int)
    ensures SEP !in Decimal.PrintInt(i) && Bars(Decimal.PrintInt(i)) == 0
  {
    NoBars(Decimal.PrintInt(i));
  }

  lemma BarsOfJoin(a: string, b: string)
    ensures Bars(a + [SEP] + b) == Bars(a) + 1 + Bars(b)
  {
    BarsConcat(a + [SEP], b);
    BarsConcat(a, [SEP]);
  }

  lemma MarshalBars(e: Entry)
    ensures Bars(Marshal(e))
         == 6 + Bars(e.tokenHash) + Bars(e.userId) + Bars(e.reason) + Bars(e.ipAddress) + Bars(e.userAgent)
  {
    var p4, p3 := Decimal.PrintInt(e.expiresAt.seconds), Decimal.PrintInt(e.blacklistedAt.seconds);
    var t6 := e.ipAddress + [SEP] + e.userAgent;
    var t5 := p4 + [SEP] + t6;
    var t4 := p3 + [SEP] + t5;
    var t3 := e.reason + [SEP] + t4;
    var t2 := e.userId + [SEP] + t3;
    BarsOfJoin(e.ipAddress, e.userAgent);
    BarsOfJoin(p4, t6);
    BarsOfJoin(p3, t5);
    BarsOfJoin(e.reason, t4);
    BarsOfJoin(e.userId, t3);
    BarsOfJoin(e.tokenHash, t2);
    PrintedIntIsClean(e.expiresAt.seconds);
    PrintedIntIsClean(e.blacklistedAt.seconds);
  }

  lemma SplitThree(a: string, b: string, c: string, rest: string)
    requires SEP !in a && SEP !in b && SEP !in c
    ensures Split(a + [SEP] + (b + [SEP] + (c + [SEP] + rest))) == [a, b, c] + Split(rest)
  {
    SplitFirst(c, rest);
    SplitFirst(b, c + [SEP] + rest);
    SplitFirst(a, b + [SEP] + (c + [SEP] + rest));
  }

  lemma SplitMarshal(e: Entry)
    requires FieldsClean(e)
    ensures Split(Marshal(e)) == [e.tokenHash, e.userId, e.reason, Decimal.PrintInt(e.blacklistedAt.seconds),
                                  Decimal.PrintInt(e.expiresAt.seconds), e.ipAddress, e.userAgent]
  {
    var p4, p3 := Decimal.PrintInt(e.expiresAt.seconds), Decimal.PrintInt(e.blacklistedAt.seconds);
    PrintedIntIsClean(e.expiresAt.seconds);
    PrintedIntIsClean(e.blacklistedAt.seconds);
    SplitLast(e.userAgent);
    SplitThree(p3, p4, e.ipAddress, e.userAgent);
    SplitThree(e.tokenHash, e.userId, e.reason, p3 + [SEP] + (p4 + [SEP] + (e.ipAddress + [SEP] + e.userAgent)));
  }

  /** Round trip for all strings and all 64-bit timestamps, into any target: reading back succeeds if
      and only if none of the five text fields contains '|', and then gives the entry with both
      timestamps cut to whole seconds. */
  lemma RoundTrip(e: Entry, target: Entry)
    requires Int64(e.blacklistedAt.seconds) && Int64(e.expiresAt.seconds)
    ensures Unmarshal(Marshal(e), target) == if FieldsClean(e) then Some(ToSeconds(e)) else None
  {
    if FieldsClean(e) {
      SplitMarshal(e);
      Decimal.ParseIntOfPrintInt(e.blacklistedAt.seconds);
      Decimal.ParseIntOfPrintInt(e.expiresAt.seconds);
    } else {
      MarshalBars(e);
      NoBars(e.tokenHash);
      NoBars(e.userId);
      NoBars(e.reason);
      NoBars(e.ipAddress);
      NoBars(e.userAgent);
    }
  }

  /** A timestamp that parses, else the one that was there. */
  function ReadTime(text: string, before: Instant): Instant {
    match Decimal.ParseInt64(text)
    case Some(t) => Instant(t, 0)
    case None => before
  }

  /** The entry object that the reader fills in. */
  class EntryObject {
    var value: Entry

    constructor (initial: Entry)
      ensures value == initial
    {
      value := initial;
    }

    /** `unmarshalEntry`: field by field; on an error nothing has been written. */
    method UnmarshalInto(data: string) returns (ok: bool)
      modifies this
      ensures ok <==> Unmarshal(data, old(value)).Some?
      ensures value == if ok then Unmarshal(data, old(value)).value else old(value)
      ensures ok <==> Bars(data) == 6
      ensures ok ==>
                var p := Split(data);
                && value.tokenHash == p[0] && value.userId == p[1] && value.reason == p[2]
                && value.ipAddress == p[5] && value.userAgent == p[6]
                && value.blacklistedAt == ReadTime(p[3], old(value).blacklistedAt)
                && value.expiresAt == ReadTime(p[4], old(value).expiresAt)
    {
      var parts := Split(data);
      if |parts| != 7 {
        return false;
      }
      value := value.(tokenHash := parts[0], userId := parts[1], reason := parts[2]);
      var at := Decimal.ParseInt64(parts[3]);
      if at.Some? {
        value := value.(blacklistedAt := Instant(at.value, 0));
      }
      var exp := Decimal.ParseInt64(parts[4]);
      if exp.Some? {
        value := value.(expiresAt := Instant(exp.value, 0));
      }
      value := value.(ipAddress := parts[5], userAgent := parts[6]);
      ok := true;
    }
  }
}
