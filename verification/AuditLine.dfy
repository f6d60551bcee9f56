/** Audit events on the wire: the loader's JSON line for an event, and the
    dashboard's reading of it into a record, its history ring and its totals.
  */
module AuditLine {
  import opened Bits
  import opened Common
  import opened AuditJson

  // ------------------------------------------------------------------------ getters

  function Take(s: string, n: nat): string {
    if |s| <= n then s else s[..n]
  }

  /** The text of a quoted member, cut to fit a buffer with its terminator. */
  function GetStr(json: string, key: string, max: nat): Option<string>
    requires max > 0
  {
    match AfterFirst(json, Opening(key) + "\"")
    case None => None
    case Some(p) =>
      match BeforeQuote(p)
      case None => None
      case Some(v) => Some(Take(v, max - 1))
  }

  function SkipSpaces(s: string): string {
    if s != [] && s[0] == ' ' then SkipSpaces(s[1..]) else s
  }

  predicate IsSpace(c: char) {
    c == ' ' || 9 <= c as int <= 13
  }

  function SkipBlanks(s: string): string {
    if s != [] && IsSpace(s[0]) then SkipBlanks(s[1..]) else s
  }

  /** `strtol` with base 10: blanks, a sign, digits, clamped to a long. */
  function Strtol(s: string): int {
    var t := SkipBlanks(s);
    if t != [] && t[0] == '-' then
      var v: int := Numeral(t[1..], 10, 0);
      if v > WORD64 / 2 then -(WORD64 / 2) else -v
    else
      var v := Numeral(if t != [] && t[0] == '+' then t[1..] else t, 10, 0);
      if v >= WORD64 / 2 then WORD64 / 2 - 1 else v
  }

  /** `strtoul` with base 10: a minus sign negates within the word. */
  function Strtoul(s: string): nat {
    var t := SkipBlanks(s);
    if t != [] && t[0] == '-' then
      var v := Numeral(t[1..], 10, 0);
      if v >= WORD64 then WORD64 - 1 else (WORD64 - v) % WORD64
    else
      var v := Numeral(if t != [] && t[0] == '+' then t[1..] else t, 10, 0);
      if v >= WORD64 then WORD64 - 1 else v
  }

  /** A bare number, cut to 32 bits; a quoted one is not read. */
  function GetUint(json: string, key: string): Option<nat> {
    match AfterFirst(json, Opening(key))
    case None => None
    case Some(p) =>
      var q := SkipSpaces(p);
      if q != [] && q[0] == '"' then None else Some(Strtoul(q) % WORD32)
  }

  function GetLong(json: string, key: string): Option<int> {
    match AfterFirst(json, Opening(key))
    case None => None
    case Some(p) => Some(Strtol(SkipSpaces(p)))
  }

  // ------------------------------------------------------- getters on a printed object

  function Object(fs: seq<Field>, end: string): string
    requires fs != []
  {
    "{" + Members(fs, end)
  }

  predicate At(fs: seq<Field>, i: nat, f: Field) {
    i < |fs| && fs[i] == f && Absent(fs[..i], f.key)
  }

  lemma ObjectAbsent(fs: seq<Field>, end: string, pat: string, key: string)
    requires FieldsOk(fs) && EndOk(end) && PatternFor(pat, key) && Absent(fs, key)
    ensures AfterFirst(Object(fs, end), pat) == None
  {
    hide AfterFirst, Members, EndOk;
    PatternStart(pat, key);
    SkipPlain("{", Members(fs, end), pat);
    KeyAbsent(fs, end, pat, key);
  }

  /** The search for a key in an object ends in front of its member's value. */
  lemma ObjectFound(fs: seq<Field>, end: string, i: nat, f: Field, pat: string)
    requires FieldsOk(fs) && EndOk(end) && At(fs, i, f)
    requires pat == if f.quoted then Opening(f.key) + "\"" else Opening(f.key)
    ensures var a := Following(fs[i..], end);
            && a != [] && a[0] in ",}"
            && AfterFirst(Object(fs, end), pat) == Some(f.value + if f.quoted then "\"" + a else a)
  {
    hide EndOk;
    var a := Following(fs[i..], end);
    FollowingStart(fs[i..], end);
    PatternStart(pat, f.key);
    SkipPlain("{", Members(fs, end), pat);
    KeyFound(fs, end, i, pat);
    HeadMatches(fs[i..], end, pat);
  }

  lemma HeadMatches(fs: seq<Field>, end: string, pat: string)
    requires fs != []
    requires pat == if fs[0].quoted then Opening(fs[0].key) + "\"" else Opening(fs[0].key)
    ensures AfterFirst(Members(fs, end), pat)
         == Some(fs[0].value + if fs[0].quoted then "\"" + Following(fs, end) else Following(fs, end))
  {
    var f, a := fs[0], Following(fs, end);
    var rest := f.value + if f.quoted then "\"" + a else a;
    assert Members(fs, end) == pat + rest;
    assert (pat + rest)[|pat|..] == rest;
  }

  lemma StrField(fs: seq<Field>, end: string, i: nat, f: Field, max: nat)
    requires FieldsOk(fs) && EndOk(end) && At(fs, i, f) && f.quoted && max > 0
    ensures GetStr(Object(fs, end), f.key, max) == Some(Take(f.value, max - 1))
  {
    hide AfterFirst, Members, EndOk, Object;
    ObjectFound(fs, end, i, f, Opening(f.key) + "\"");
    BeforeQuotePlain(f.value, Following(fs[i..], end));
  }

  function Decimal(n: int): (s: string)
    ensures s != []
  {
    if n < 0 then "-" + Digits(-n, 10) else Digits(n, 10)
  }

  /** A printed number is read back, whatever non-digit follows it. */
  lemma StrtolDecimal(n: int, a: string)
    requires -(WORD64 / 2) <= n < WORD64 / 2 && EndsNumeral(a, 10)
    ensures SkipSpaces(Decimal(n) + a) == Decimal(n) + a && Strtol(Decimal(n) + a) == n
  {
    hide Digits, Numeral;
    var m := if n < 0 then -n else n;
    DigitsPlain(m, 10);
    NumberRoundTrip(m, 10, a);
    if n < 0 {
      assert (Decimal(n) + a)[1..] == Digits(m, 10) + a;
    }
  }

  lemma StrtoulDecimal(n: nat, a: string)
    requires n < WORD64 && EndsNumeral(a, 10)
    ensures var s := Digits(n, 10) + a; SkipSpaces(s) == s && s[0] != '"' && Strtoul(s) == n
  {
    hide Digits, Numeral;
    DigitsPlain(n, 10);
    NumberRoundTrip(n, 10, a);
  }

  lemma UintField(fs: seq<Field>, end: string, i: nat, key: string, n: nat)
    requires FieldsOk(fs) && EndOk(end) && At(fs, i, Field(key, Digits(n, 10), false)) && n < WORD32
    ensures GetUint(Object(fs, end), key) == Some(n)
  {
    hide AfterFirst, Members, EndOk, Object, Digits, Strtoul, SkipSpaces;
    ObjectFound(fs, end, i, Field(key, Digits(n, 10), false), Opening(key));
    StrtoulDecimal(n, Following(fs[i..], end));
  }

  lemma LongField(fs: seq<Field>, end: string, i: nat, key: string, n: int)
    requires FieldsOk(fs) && EndOk(end) && At(fs, i, Field(key, Decimal(n), false))
    requires -(WORD64 / 2) <= n < WORD64 / 2
    ensures GetLong(Object(fs, end), key) == Some(n)
  {
    hide AfterFirst, Members, EndOk, Object, Decimal, Strtol, SkipSpaces;
    ObjectFound(fs, end, i, Field(key, Decimal(n), false), Opening(key));
    StrtolDecimal(n, Following(fs[i..], end));
  }

  // ------------------------------------------------------------------------- events

  const EVENT_FEXIT_OK := 6

  datatype AuditEvent = AuditEvent(tgid: u32, tid: u32, rip: u64, offset: u64, moduleId: u32, nr: u32, action: byte)

  /** The wall clock as the printer reads it: formatted seconds and
      milliseconds.
    */
  datatype Clock = Clock(seconds: string, ms: nat)

  predicate ClockOk(c: Clock) {
    Plain(c.seconds) && OneLine(c.seconds) && |c.seconds| <= 31 && c.ms < 1000
  }

  function ActionName(action: byte): string {
    if action == 0 then "ALLOW"
    else if action == 1 then "BLOCK"
    else if action == 2 then "ALLOW+CFI"
    else if action == 3 then "CFI-FAIL"
    else if action == 4 then "NR-MISMATCH"
    else if action == 5 then "FORK-TRACK"
    else if action == 6 then "FEXIT"
    else if action == 7 then "DLOPEN-EXT"
    else if action == 8 then "PERMISSIVE"
    else if action == 9 then "LEARN"
    else if action == 10 then "LIB-DENY"
    else if action == 11 then "SHADOW-OK"
    else if action == 12 then "SHADOW-FAIL"
    else if action == 13 then "FALLBACK"
    else if action == 14 then "KOBJ-DENY"
    else "UNKNOWN"
  }

  function Stamp(c: Clock): string
    requires c.ms < 1000
  {
    c.seconds + "." + [DigitChar(c.ms / 100), DigitChar(c.ms / 10 % 10), DigitChar(c.ms % 10)] + "Z"
  }

  function Signed(x: u64): (n: int)
    ensures -(WORD64 / 2) <= n < WORD64 / 2 && (n - x) % WORD64 == 0
  {
    if x < WORD64 / 2 then x else x - WORD64
  }

  function Hex(x: nat): string {
    "0x" + Digits(x, 16)
  }

  /** The members that every event has. */
  function CommonFields(e: AuditEvent, c: Clock): (fs: seq<Field>)
    requires c.ms < 1000
    ensures |fs| == 5
  {
    [Field("ts", Stamp(c), true),
     Field("action", ActionName(e.action), true),
     Field("pid", Digits(e.tgid, 10), false),
     Field("tid", Digits(e.tid, 10), false),
     Field("syscall_nr", Digits(e.nr, 10), false)]
  }

  function OwnFields(e: AuditEvent): (fs: seq<Field>)
    ensures fs != []
  {
    if e.action == EVENT_FEXIT_OK then
      [Field("ret", Decimal(Signed(e.offset)), false)]
    else
      [Field("rip", Hex(e.rip), true),
       Field("offset", Hex(e.offset), true),
       Field("module", Digits(e.moduleId, 10), false)]
  }

  function Fields(e: AuditEvent, c: Clock): (fs: seq<Field>)
    requires c.ms < 1000
    ensures |fs| >= 6
  {
    CommonFields(e, c) + OwnFields(e)
  }

  const JSON_SIZE := 512

  /** The text the handler prints, or nothing when it does not fit its buffer. */
  function Print(e: AuditEvent, c: Clock): Option<string>
    requires c.ms < 1000
  {
    var text := Object(Fields(e, c), "}");
    if |text| >= JSON_SIZE then None else Some(text)
  }

  // -------------------------------------------------------------------- buffer size

  predicate Short(f: Field) {
    |f.key| + |f.value| <= 38
  }

  lemma {:induction false} MembersLength(fs: seq<Field>, end: string)
    requires fs != [] && forall i :: 0 <= i < |fs| ==> Short(fs[i])
    ensures |Members(fs, end)| <= 44 * |fs| + |end|
    decreases |fs|
  {
    if |fs| > 1 {
      MembersLength(fs[1..], end);
    }
  }

  lemma Powers()
    ensures WORD32 < Power(10, 10) && WORD64 / 2 < Power(10, 19) && WORD64 == Power(16, 16)
  {
    assert Power(16, 8) == WORD32;
    assert Power(16, 12) == 0x10000 * WORD32;
  }

  lemma NumeralsShort(x: u64)
    ensures x < WORD32 ==> |Digits(x, 10)| <= 10
    ensures |Hex(x)| <= 18
  {
    hide Power, Digits;
    Powers();
    if x < WORD32 {
      DigitsLength(x, 10, 10);
    }
    DigitsLength(x, 16, 16);
  }

  lemma DecimalShort(x: u64)
    ensures |Decimal(Signed(x))| <= 20
  {
    hide Power, Digits;
    Powers();
    var n := Signed(x);
    DigitsLength(if n < 0 then -n else n, 10, 19);
  }

  lemma NamesShort(action: byte)
    ensures |ActionName(action)| <= 11
  {
  }

  lemma LowNamesPlain(action: byte)
    requires action < 6
    ensures Plain(ActionName(action)) && OneLine(ActionName(action))
  {
  }

  lemma MiddleNamesPlain(action: byte)
    requires 6 <= action < 11
    ensures Plain(ActionName(action)) && OneLine(ActionName(action))
  {
  }

  lemma HighNamesPlain(action: byte)
    requires 11 <= action
    ensures Plain(ActionName(action)) && OneLine(ActionName(action))
  {
  }

  lemma NamesPlain(action: byte)
    ensures Plain(ActionName(action)) && OneLine(ActionName(action))
  {
    hide ActionName;
    if action < 6 {
      LowNamesPlain(action);
    } else if action < 11 {
      MiddleNamesPlain(action);
    } else {
      HighNamesPlain(action);
    }
  }

  lemma FexitName(action: byte)
    ensures ActionName(action) == "FEXIT" <==> action == EVENT_FEXIT_OK
  {
    assert "FEXIT"[0] == 'F' && "FEXIT"[1] == 'E';
  }

  lemma StampShort(c: Clock)
    requires ClockOk(c)
    ensures |Stamp(c)| == |c.seconds| + 5 && Plain(Stamp(c)) && OneLine(Stamp(c))
  {
    hide DigitChar;
    DigitRoundTrip(c.ms / 100);
    DigitRoundTrip(c.ms / 10 % 10);
    DigitRoundTrip(c.ms % 10);
  }

  lemma FieldsShort(e: AuditEvent, c: Clock, i: nat)
    requires ClockOk(c) && i < |Fields(e, c)|
    ensures Short(Fields(e, c)[i])
  {
    hide Digits, Decimal, Stamp, ActionName, Hex;
    NumeralsShort(e.tgid);
    NumeralsShort(e.tid);
    NumeralsShort(e.nr);
    NumeralsShort(e.moduleId);
    NumeralsShort(e.rip);
    NumeralsShort(e.offset);
    DecimalShort(e.offset);
    NamesShort(e.action);
    StampShort(c);
  }

  /** Every event fits the print buffer. */
  lemma AlwaysPrinted(e: AuditEvent, c: Clock)
    requires ClockOk(c)
    ensures Print(e, c) == Some(Object(Fields(e, c), "}"))
  {
    hide Fields, Members;
    var fs := Fields(e, c);
    forall i | 0 <= i < |fs| ensures Short(fs[i]) {
      FieldsShort(e, c, i);
    }
    MembersLength(fs, "}");
    assert |fs| <= 8 by {
      FieldCount(e, c);
    }
  }

  lemma FieldCount(e: AuditEvent, c: Clock)
    requires c.ms < 1000
    ensures |Fields(e, c)| == if e.action == EVENT_FEXIT_OK then 6 else 8
  {
  }

  // ---------------------------------------------------------------------- round trip

  /** A parsed event: what the dashboard keeps of a line. */
  datatype Record = Record(action: string, pid: nat, tid: nat, nr: nat, ret: int, rip: string, offset: string,
                           moduleId: nat, timestamp: string, isFexit: bool)

  function UnwrapOr<T>(o: Option<T>, default: T): T {
    match o
    case None => default
    case Some(v) => v
  }

  function ParseEvent(line: string): Option<Record> {
    match GetStr(line, "action", 16)
    case None => None
    case Some(action) =>
      Some(Record(
             action,
             UnwrapOr(GetUint(line, "pid"), 0),
             UnwrapOr(GetUint(line, "tid"), 0),
             UnwrapOr(GetUint(line, "syscall_nr"), 0),
             if action == "FEXIT" then UnwrapOr(GetLong(line, "ret"), 0) else 0,
             UnwrapOr(GetStr(line, "rip", 20), ""),
             UnwrapOr(GetStr(line, "offset", 20), ""),
             UnwrapOr(GetUint(line, "module"), 0),
             UnwrapOr(GetStr(line, "ts", 32), ""),
             action == "FEXIT"))
  }

  /** The record an event should turn into. */
  function RecordOf(e: AuditEvent, c: Clock): Record
    requires c.ms < 1000
  {
    var fexit := e.action == EVENT_FEXIT_OK;
    Record(ActionName(e.action), e.tgid, e.tid, e.nr,
           if fexit then Signed(e.offset) else 0,
           if fexit then "" else Hex(e.rip),
           if fexit then "" else Hex(e.offset),
           if fexit then 0 else e.moduleId,
           Take(Stamp(c), 31), fexit)
  }

  lemma FieldsFit(e: AuditEvent, c: Clock)
    requires ClockOk(c)
    ensures FieldsOk(Fields(e, c))
  {
    hide Digits, Decimal, Stamp, ActionName, KeyOk;
    KeysOk();
    NamesPlain(e.action);
    StampShort(c);
    DigitsPlain(e.tgid, 10);
    DigitsPlain(e.tid, 10);
    DigitsPlain(e.nr, 10);
    DigitsPlain(e.moduleId, 10);
    DigitsPlain(e.rip, 16);
    DigitsPlain(e.offset, 16);
    DecimalPlain(Signed(e.offset));
  }

  lemma KeysOk()
    ensures KeyOk("ts") && KeyOk("action") && KeyOk("pid") && KeyOk("tid") && KeyOk("syscall_nr") && KeyOk("ret")
    ensures KeyOk("rip") && KeyOk("offset") && KeyOk("module")
  {
  }

  lemma DecimalPlain(n: int)
    ensures Plain(Decimal(n)) && OneLine(Decimal(n))
  {
    DigitsPlain(if n < 0 then -n else n, 10);
  }

  /** Where each member stands. */
  lemma Places(e: AuditEvent, c: Clock)
    requires c.ms < 1000
    ensures var fs := Fields(e, c);
            && At(fs, 0, Field("ts", Stamp(c), true))
            && At(fs, 1, Field("action", ActionName(e.action), true))
            && At(fs, 2, Field("pid", Digits(e.tgid, 10), false))
            && At(fs, 3, Field("tid", Digits(e.tid, 10), false))
            && At(fs, 4, Field("syscall_nr", Digits(e.nr, 10), false))
  {
    hide Digits, Decimal, Stamp, ActionName, Hex;
  }

  lemma FexitPlaces(e: AuditEvent, c: Clock)
    requires c.ms < 1000 && e.action == EVENT_FEXIT_OK
    ensures var fs := Fields(e, c);
            && At(fs, 5, Field("ret", Decimal(Signed(e.offset)), false))
            && Absent(fs, "rip") && Absent(fs, "offset") && Absent(fs, "module")
  {
    hide Digits, Decimal, Stamp, ActionName, Hex;
  }

  lemma OtherPlaces(e: AuditEvent, c: Clock)
    requires c.ms < 1000 && e.action != EVENT_FEXIT_OK
    ensures var fs := Fields(e, c);
            && At(fs, 5, Field("rip", Hex(e.rip), true))
            && At(fs, 6, Field("offset", Hex(e.offset), true))
            && At(fs, 7, Field("module", Digits(e.moduleId, 10), false))
  {
    hide Digits, Decimal, Stamp, ActionName, Hex;
  }

  lemma AbsentMember(fs: seq<Field>, end: string, key: string)
    requires FieldsOk(fs) && EndOk(end) && KeyOk(key) && Absent(fs, key)
    ensures GetStr(Object(fs, end), key, 20) == None && GetUint(Object(fs, end), key) == None
  {
    hide AfterFirst, Members, EndOk, Object;
    ObjectAbsent(fs, end, Opening(key), key);
    ObjectAbsent(fs, end, Opening(key) + "\"", key);
  }

  lemma CommonRead(e: AuditEvent, c: Clock, end: string)
    requires ClockOk(c) && EndOk(end)
    ensures var line := Object(Fields(e, c), end);
            && GetStr(line, "action", 16) == Some(ActionName(e.action))
            && GetUint(line, "pid") == Some(e.tgid)
            && GetUint(line, "tid") == Some(e.tid)
            && GetUint(line, "syscall_nr") == Some(e.nr)
            && GetStr(line, "ts", 32) == Some(Take(Stamp(c), 31))
  {
    hide Fields, Object, GetStr, GetUint, EndOk, FieldsOk, ActionName, Digits, Stamp, At;
    var fs := Fields(e, c);
    FieldsFit(e, c);
    Places(e, c);
    NamesShort(e.action);
    StrField(fs, end, 0, Field("ts", Stamp(c), true), 32);
    StrField(fs, end, 1, Field("action", ActionName(e.action), true), 16);
    UintField(fs, end, 2, "pid", e.tgid);
    UintField(fs, end, 3, "tid", e.tid);
    UintField(fs, end, 4, "syscall_nr", e.nr);
  }

  lemma FexitRead(e: AuditEvent, c: Clock, end: string)
    requires ClockOk(c) && EndOk(end) && e.action == EVENT_FEXIT_OK
    ensures var line := Object(Fields(e, c), end);
            && GetLong(line, "ret") == Some(Signed(e.offset))
            && GetStr(line, "rip", 20) == None && GetStr(line, "offset", 20) == None && GetUint(line, "module") == None
  {
    hide Fields, Object, GetStr, GetUint, GetLong, EndOk, FieldsOk, Decimal, Signed, At, KeyOk;
    var fs := Fields(e, c);
    FieldsFit(e, c);
    FexitPlaces(e, c);
    KeysOk();
    LongField(fs, end, 5, "ret", Signed(e.offset));
    AbsentMember(fs, end, "rip");
    AbsentMember(fs, end, "offset");
    AbsentMember(fs, end, "module");
  }

  lemma OtherRead(e: AuditEvent, c: Clock, end: string)
    requires ClockOk(c) && EndOk(end) && e.action != EVENT_FEXIT_OK
    ensures var line := Object(Fields(e, c), end);
            && GetStr(line, "rip", 20) == Some(Hex(e.rip))
            && GetStr(line, "offset", 20) == Some(Hex(e.offset))
            && GetUint(line, "module") == Some(e.moduleId)
  {
    hide Fields, Object, GetStr, GetUint, EndOk, FieldsOk, Digits, Hex, At;
    var fs := Fields(e, c);
    FieldsFit(e, c);
    OtherPlaces(e, c);
    NumeralsShort(e.rip);
    NumeralsShort(e.offset);
    StrField(fs, end, 5, Field("rip", Hex(e.rip), true), 20);
    StrField(fs, end, 6, Field("offset", Hex(e.offset), true), 20);
    UintField(fs, end, 7, "module", e.moduleId);
  }

  /** Parsing inverts printing, for every event. */
  lemma ParsePrinted(e: AuditEvent, c: Clock, end: string)
    requires ClockOk(c) && EndOk(end)
    ensures ParseEvent(Object(Fields(e, c), end)) == Some(RecordOf(e, c))
  {
    hide Fields, Object, GetStr, GetUint, GetLong, EndOk, ActionName, Hex, Stamp, Signed, ClockOk;
    CommonRead(e, c, end);
    FexitName(e.action);
    if e.action == EVENT_FEXIT_OK {
      FexitRead(e, c, end);
    } else {
      OtherRead(e, c, end);
    }
  }

  lemma {:induction false} MembersExtend(fs: seq<Field>, end: string, t: string)
    requires fs != []
    ensures Members(fs, end) + t == Members(fs, end + t)
    decreases |fs|
  {
    var f, a := fs[0], Following(fs, end);
    assert Members(fs, end) + t == Opening(f.key) + (ValueText(f) + (a + t));
    if |fs| > 1 {
      MembersExtend(fs[1..], end, t);
      assert a + t == "," + (Members(fs[1..], end) + t);
    }
  }

  /** Every event is printed, and the dashboard reads its line back as the
      record of that event.
    */
  lemma RoundTrip(e: AuditEvent, c: Clock)
    requires ClockOk(c)
    ensures Print(e, c).Some? && ParseEvent(Print(e, c).value + "\n") == Some(RecordOf(e, c))
  {
    hide Fields, Members, ParseEvent, RecordOf;
    AlwaysPrinted(e, c);
    var fs := Fields(e, c);
    MembersExtend(fs, "}", "\n");
    assert "}" + "\n" == "}\n";
    assert Object(fs, "}") + "\n" == "{" + (Members(fs, "}") + "\n");
    ParsePrinted(e, c, "}\n");
  }

  lemma HexInjective(x: nat, y: nat)
    requires Hex(x) == Hex(y)
    ensures x == y
  {
    assert Hex(x)[2..] == Digits(x, 16) && Hex(y)[2..] == Digits(y, 16);
    NumberRoundTrip(x, 16, []);
    NumberRoundTrip(y, 16, []);
    assert Digits(x, 16) + [] == Digits(y, 16) + [];
  }

  /** A line determines all that its event carries. */
  lemma LineDeterminesEvent(e: AuditEvent, f: AuditEvent, c: Clock, d: Clock)
    requires ClockOk(c) && ClockOk(d) && Print(e, c) == Print(f, d)
    ensures ActionName(e.action) == ActionName(f.action)
    ensures e.tgid == f.tgid && e.tid == f.tid && e.nr == f.nr && e.offset == f.offset
    ensures e.action != EVENT_FEXIT_OK ==> e.rip == f.rip && e.moduleId == f.moduleId
  {
    hide Print, ParseEvent, Hex, Stamp, ActionName, ClockOk;
    RoundTrip(e, c);
    RoundTrip(f, d);
    if e.action != EVENT_FEXIT_OK {
      HexInjective(e.rip, f.rip);
      HexInjective(e.offset, f.offset);
    }
  }

  // ------------------------------------------------------------------ the text itself

  function Quoted(key: string, value: string): string {
    "\"" + key + "\":\"" + value + "\""
  }

  function Bare(key: string, value: string): string {
    "\"" + key + "\":" + value
  }

  /** The time with three digits of milliseconds, in UTC. */
  function TimeText(c: Clock): string
    requires c.ms < 1000
  {
    c.seconds + "." + [(48 + c.ms / 100) as char, (48 + c.ms / 10 % 10) as char, (48 + c.ms % 10) as char] + "Z"
  }

  /** The members of an event's line as they are printed. */
  function MemberTexts(e: AuditEvent, c: Clock): (r: seq<string>)
    requires c.ms < 1000
    ensures r != []
  {
    [Quoted("ts", TimeText(c)), Quoted("action", ActionName(e.action)), Bare("pid", Digits(e.tgid, 10)),
     Bare("tid", Digits(e.tid, 10)), Bare("syscall_nr", Digits(e.nr, 10))]
    + if e.action == 6 then [Bare("ret", Decimal(Signed(e.offset)))]
      else [Quoted("rip", "0x" + Digits(e.rip, 16)), Quoted("offset", "0x" + Digits(e.offset, 16)),
            Bare("module", Digits(e.moduleId, 10))]
  }

  function CommaJoined(texts: seq<string>): string
    requires texts != []
  {
    if |texts| == 1 then texts[0] else texts[0] + "," + CommaJoined(texts[1..])
  }

  function TextOf(f: Field): string {
    if f.quoted then Quoted(f.key, f.value) else Bare(f.key, f.value)
  }

  lemma {:induction false} MembersAre(fs: seq<Field>, texts: seq<string>)
    requires fs != [] && |texts| == |fs| && forall i :: 0 <= i < |fs| ==> texts[i] == TextOf(fs[i])
    ensures Members(fs, "}") == CommaJoined(texts) + "}"
    decreases |fs|
  {
    var f := fs[0];
    assert Opening(f.key) + ValueText(f) == TextOf(f);
    if |fs| == 1 {
      assert Members(fs, "}") == (Opening(f.key) + ValueText(f)) + "}";
    } else {
      MembersAre(fs[1..], texts[1..]);
      assert Members(fs, "}") == (Opening(f.key) + ValueText(f)) + ("," + Members(fs[1..], "}"));
    }
  }

  lemma StampIs(c: Clock)
    requires c.ms < 1000
    ensures Stamp(c) == TimeText(c)
  {
    DigitCharIs(c.ms / 100);
    DigitCharIs(c.ms / 10 % 10);
    DigitCharIs(c.ms % 10);
  }

  /** The printed line is an object of these members, separated by commas. */
  lemma PrintedText(e: AuditEvent, c: Clock)
    requires ClockOk(c)
    ensures Print(e, c) == Some("{" + CommaJoined(MemberTexts(e, c)) + "}")
  {
    hide Digits, Decimal, ActionName, Stamp, TimeText, Members, CommaJoined, Quoted, Bare, Signed;
    AlwaysPrinted(e, c);
    StampIs(c);
    MembersAre(Fields(e, c), MemberTexts(e, c));
    var text := CommaJoined(MemberTexts(e, c));
    assert "{" + (text + "}") == "{" + text + "}";
  }

  /** Whatever prints a line: texts are read up to the size of their buffers. */
  lemma ForeignTexts(fs: seq<Field>, end: string, i: nat, j: nat, action: string, value: string)
    requires FieldsOk(fs) && EndOk(end) && At(fs, i, Field("action", action, true))
    ensures
      var r := ParseEvent(Object(fs, end));
      && r.Some? && r.value.action == Take(action, 15)
      && (At(fs, j, Field("rip", value, true)) ==> r.value.rip == Take(value, 19))
      && (At(fs, j, Field("offset", value, true)) ==> r.value.offset == Take(value, 19))
      && (At(fs, j, Field("ts", value, true)) ==> r.value.timestamp == Take(value, 31))
  {
    hide Object, GetStr, GetUint, GetLong, EndOk, FieldsOk, At;
    StrField(fs, end, i, Field("action", action, true), 16);
    if At(fs, j, Field("rip", value, true)) { StrField(fs, end, j, Field("rip", value, true), 20); }
    if At(fs, j, Field("offset", value, true)) { StrField(fs, end, j, Field("offset", value, true), 20); }
    if At(fs, j, Field("ts", value, true)) { StrField(fs, end, j, Field("ts", value, true), 32); }
  }

  // ---------------------------------------------------------------- one line an event

  predicate FieldOneLine(f: Field) {
    OneLine(f.key) && OneLine(f.value)
  }

  lemma {:induction false} MembersOneLine(fs: seq<Field>)
    requires fs != [] && forall i :: 0 <= i < |fs| ==> FieldOneLine(fs[i])
    ensures OneLine(Members(fs, "}"))
    decreases |fs|
  {
    if |fs| > 1 {
      MembersOneLine(fs[1..]);
    }
  }

  lemma KeysOneLine()
    ensures OneLine("ts") && OneLine("action") && OneLine("pid") && OneLine("tid") && OneLine("syscall_nr")
    ensures OneLine("ret") && OneLine("rip") && OneLine("offset") && OneLine("module")
  {
  }

  lemma FieldsOneLine(e: AuditEvent, c: Clock, i: nat)
    requires ClockOk(c) && i < |Fields(e, c)|
    ensures FieldOneLine(Fields(e, c)[i])
  {
    hide Digits, Decimal, Stamp, ActionName, OneLine, Hex;
    KeysOneLine();
    NamesPlain(e.action);
    StampShort(c);
    DigitsPlain(e.tgid, 10);
    DigitsPlain(e.tid, 10);
    DigitsPlain(e.nr, 10);
    DigitsPlain(e.moduleId, 10);
    HexOneLine(e.rip);
    HexOneLine(e.offset);
    DecimalPlain(Signed(e.offset));
  }

  lemma HexOneLine(x: nat)
    ensures OneLine(Hex(x))
  {
    DigitsPlain(x, 16);
  }

  /** A printed event is one line. */
  lemma PrintedOneLine(e: AuditEvent, c: Clock)
    requires ClockOk(c)
    ensures Print(e, c).Some? && OneLine(Print(e, c).value) && |Print(e, c).value| < JSON_SIZE
  {
    hide Fields, Members;
    AlwaysPrinted(e, c);
    var fs := Fields(e, c);
    forall i | 0 <= i < |fs| ensures FieldOneLine(fs[i]) {
      FieldsOneLine(e, c, i);
    }
    MembersOneLine(fs);
  }
}
