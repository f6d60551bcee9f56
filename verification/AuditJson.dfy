/** The audit line between the loader and the dashboard: the loader prints an
    event as JSON, and the dashboard finds each field by searching for its
    quoted key.
  */
module AuditJson {
  import opened Common

  // ---------------------------------------------------------------------- numerals

  predicate IsBase(b: nat) {
    b == 10 || b == 16
  }

  function DigitChar(d: nat): char
    requires d < 16
  {
    "0123456789abcdef"[d]
  }

  /** The value of a digit character, 16 if it is none. */
  function DigitValue(c: char): nat {
    if '0' <= c <= '9' then (c - '0') as nat
    else if 'a' <= c <= 'f' then (c - 'a') as nat + 10
    else 16
  }

  lemma DigitRoundTrip(d: nat)
    requires d < 16
    ensures DigitValue(DigitChar(d)) == d && DigitChar(d) != '"' && DigitChar(d) != '\n'
  {
  }

  /** Digits are '0' to '9' and then 'a' to 'f'. */
  lemma DigitCharIs(d: nat)
    requires d < 16
    ensures DigitChar(d) as int == if d < 10 then 48 + d else 87 + d
  {
  }

  /** A number in a base, without leading zeros. */
  function Digits(n: nat, b: nat): (s: string)
    requires IsBase(b)
    ensures s != []
  {
    if n < b then [DigitChar(n)] else Digits(n / b, b) + [DigitChar(n % b)]
  }

  /** Reading digits up to the first character that is none. */
  function Numeral(s: string, b: nat, acc: nat): nat
    requires IsBase(b)
  {
    if s == [] || DigitValue(s[0]) >= b then acc else Numeral(s[1..], b, acc * b + DigitValue(s[0]))
  }

  predicate EndsNumeral(t: string, b: nat) {
    t == [] || DigitValue(t[0]) >= b
  }

  lemma {:induction false} NumeralDigits(n: nat, b: nat, t: string)
    requires IsBase(b)
    ensures Numeral(Digits(n, b) + t, b, 0) == Numeral(t, b, n)
    decreases n
  {
    if n < b {
      DigitRoundTrip(n);
      assert ([DigitChar(n)] + t)[1..] == t;
    } else {
      var d := [DigitChar(n % b)];
      NumeralDigits(n / b, b, d + t);
      assert Digits(n, b) + t == Digits(n / b, b) + (d + t);
      DigitRoundTrip(n % b);
      assert (d + t)[1..] == t;
    }
  }

  /** Reading a printed number gives the number, whatever follows it. */
  lemma NumberRoundTrip(n: nat, b: nat, t: string)
    requires IsBase(b) && EndsNumeral(t, b)
    ensures Numeral(Digits(n, b) + t, b, 0) == n
  {
    NumeralDigits(n, b, t);
  }

  function Power(b: nat, k: nat): nat {
    if k == 0 then 1 else b * Power(b, k - 1)
  }

  lemma {:induction false} DigitsLength(n: nat, b: nat, k: nat)
    requires IsBase(b) && k > 0 && n < Power(b, k)
    ensures |Digits(n, b)| <= k
  {
    if n >= b {
      assert k > 1;
      assert n / b < Power(b, k - 1);
      DigitsLength(n / b, b, k - 1);
    }
  }

  predicate Plain(s: string) {
    forall i :: 0 <= i < |s| ==> s[i] != '"'
  }

  predicate OneLine(s: string) {
    forall i :: 0 <= i < |s| ==> s[i] != '\n'
  }

  lemma {:induction false} DigitsPlain(n: nat, b: nat)
    requires IsBase(b)
    ensures Plain(Digits(n, b)) && OneLine(Digits(n, b)) && DigitValue(Digits(n, b)[0]) < b
  {
    if n < b {
      DigitRoundTrip(n);
    } else {
      DigitRoundTrip(n % b);
      DigitsPlain(n / b, b);
    }
  }

  // ---------------------------------------------------------------------- searching

  /** What follows the first occurrence of a pattern (`strstr`). */
  function AfterFirst(s: string, pat: string): Option<string> {
    if pat <= s then Some(s[|pat|..])
    else if s == [] then None
    else AfterFirst(s[1..], pat)
  }

  lemma {:induction false} SkipPlain(x: string, s: string, pat: string)
    requires Plain(x) && pat != [] && pat[0] == '"'
    ensures AfterFirst(x + s, pat) == AfterFirst(s, pat)
  {
    if x == [] {
      assert x + s == s;
    } else {
      assert (x + s)[0] == x[0];
      assert (x + s)[1..] == x[1..] + s;
      SkipPlain(x[1..], s, pat);
    }
  }

  lemma AbsentFromPlain(x: string, pat: string)
    requires Plain(x) && pat != [] && pat[0] == '"'
    ensures AfterFirst(x, pat) == None
  {
    SkipPlain(x, [], pat);
    assert x + [] == x;
  }

  // ------------------------------------------------------------------------- fields

  /** One member of the printed object: a key with a quoted text or a bare
      number.
    */
  datatype Field = Field(key: string, value: string, quoted: bool)

  function Opening(key: string): string {
    "\"" + key + "\":"
  }

  function ValueText(f: Field): string {
    if f.quoted then "\"" + f.value + "\"" else f.value
  }

  /** The members of an object, up to and including what closes it. */
  function Members(fs: seq<Field>, end: string): string
    requires fs != []
    decreases |fs|, 1
  {
    Opening(fs[0].key) + (ValueText(fs[0]) + Following(fs, end))
  }

  /** What follows the first member's value. */
  function Following(fs: seq<Field>, end: string): string
    requires fs != []
    decreases |fs|, 0
  {
    if |fs| == 1 then end else "," + Members(fs[1..], end)
  }

  predicate KeyOk(key: string) {
    Plain(key) && key != [] && key[0] !in ":,}"
  }

  predicate FieldOk(f: Field) {
    KeyOk(f.key) && Plain(f.value)
  }

  predicate FieldsOk(fs: seq<Field>) {
    fs != [] && forall i :: 0 <= i < |fs| ==> FieldOk(fs[i])
  }

  predicate EndOk(end: string) {
    Plain(end) && end != [] && end[0] == '}'
  }

  /** The two patterns that are searched for a key. */
  predicate PatternFor(pat: string, key: string) {
    KeyOk(key) && (pat == Opening(key) || pat == Opening(key) + "\"")
  }

  lemma FollowingStart(fs: seq<Field>, end: string)
    requires fs != [] && EndOk(end)
    ensures Following(fs, end) != [] && Following(fs, end)[0] in ",}"
  {
  }

  lemma PatternStart(pat: string, key: string)
    requires PatternFor(pat, key)
    ensures Opening(key) <= pat && |pat| > 1 && pat[0] == '"' && pat[1] == key[0]
  {
  }

  /** What precedes the first quote (`strchr`), if there is one. */
  function BeforeQuote(s: string): Option<string> {
    if s == [] then None
    else if s[0] == '"' then Some([])
    else match BeforeQuote(s[1..])
      case None => None
      case Some(x) => Some([s[0]] + x)
  }

  lemma {:induction false} BeforeQuotePlain(x: string, z: string)
    requires Plain(x)
    ensures BeforeQuote(x + ("\"" + z)) == Some(x)
  {
    var s := x + ("\"" + z);
    if x != [] {
      assert s[0] == x[0];
      assert s[1..] == x[1..] + ("\"" + z);
      BeforeQuotePlain(x[1..], z);
      assert x == [x[0]] + x[1..];
    }
  }

  /** A key matches at a quoted text only if it is that text and a colon
      follows.
    */
  lemma MatchMeans(key: string, text: string, z: string)
    requires Plain(key) && Plain(text) && Opening(key) <= "\"" + text + ("\"" + z)
    ensures key == text && z != [] && z[0] == ':'
  {
    var s := "\"" + text + ("\"" + z);
    var rest := s[|Opening(key)|..];
    assert s == Opening(key) + rest;
    assert s[1..] == text + ("\"" + z);
    assert s[1..] == key + ("\"" + (":" + rest));
    BeforeQuotePlain(text, z);
    BeforeQuotePlain(key, ":" + rest);
    assert s[|text| + 2..] == z;
    assert s[|text| + 2..] == ":" + rest;
  }

  lemma SkipQuote(s: string, pat: string, key: string)
    requires PatternFor(pat, key) && s != [] && s[0] != key[0]
    ensures AfterFirst("\"" + s, pat) == AfterFirst(s, pat)
  {
    PatternStart(pat, key);
    assert ("\"" + s)[1] == s[0];
    assert ("\"" + s)[1..] == s;
  }

  lemma SkipValue(f: Field, a: string, pat: string, key: string)
    requires FieldOk(f) && PatternFor(pat, key) && a != [] && a[0] in ",}"
    ensures AfterFirst(ValueText(f) + a, pat) == AfterFirst(a, pat)
  {
    PatternStart(pat, key);
    if f.quoted {
      var w := "\"" + f.value + "\"" + a;
      assert ValueText(f) + a == w;
      assert w == "\"" + f.value + ("\"" + a);
      if Opening(key) <= w {
        MatchMeans(key, f.value, a);
      }
      assert w[1..] == f.value + ("\"" + a);
      SkipPlain(f.value, "\"" + a, pat);
      SkipQuote(a, pat, key);
    } else {
      SkipPlain(f.value, a, pat);
    }
  }

  lemma SkipKey(k: string, v: string, pat: string, key: string)
    requires KeyOk(k) && PatternFor(pat, key) && k != key
    ensures AfterFirst(Opening(k) + v, pat) == AfterFirst(v, pat)
  {
    hide AfterFirst;
    PatternStart(pat, key);
    var s := Opening(k) + v;
    if pat <= s {
      assert s == "\"" + k + ("\"" + (":" + v));
      MatchMeans(key, k, ":" + v);
    }
    assert AfterFirst(s, pat) == AfterFirst(s[1..], pat) by {
      StepOver(s, pat);
    }
    assert s[1..] == k + ("\"" + (":" + v));
    SkipPlain(k, "\"" + (":" + v), pat);
    SkipQuote(":" + v, pat, key);
    SkipPlain(":", v, pat);
  }

  lemma StepOver(s: string, pat: string)
    requires s != [] && !(pat <= s)
    ensures AfterFirst(s, pat) == AfterFirst(s[1..], pat)
  {
  }

  /** A member with another key holds no occurrence of the pattern. */
  lemma SkipField(fs: seq<Field>, end: string, pat: string, key: string)
    requires FieldsOk(fs) && EndOk(end) && PatternFor(pat, key) && fs[0].key != key
    ensures AfterFirst(Members(fs, end), pat) == if |fs| == 1 then None else AfterFirst(Members(fs[1..], end), pat)
  {
    hide AfterFirst, PatternFor;
    var a := Following(fs, end);
    SkipKey(fs[0].key, ValueText(fs[0]) + a, pat, key);
    FollowingStart(fs, end);
    SkipValue(fs[0], a, pat, key);
    PatternStart(pat, key);
    if |fs| == 1 {
      AbsentFromPlain(end, pat);
    } else {
      SkipPlain(",", Members(fs[1..], end), pat);
    }
  }

  predicate Absent(fs: seq<Field>, key: string) {
    forall i :: 0 <= i < |fs| ==> fs[i].key != key
  }

  lemma {:induction false} KeyAbsent(fs: seq<Field>, end: string, pat: string, key: string)
    requires FieldsOk(fs) && EndOk(end) && PatternFor(pat, key) && Absent(fs, key)
    ensures AfterFirst(Members(fs, end), pat) == None
    decreases |fs|
  {
    hide AfterFirst, PatternFor, Members, EndOk;
    SkipField(fs, end, pat, key);
    if |fs| > 1 {
      KeyAbsent(fs[1..], end, pat, key);
    }
  }

  /** The search for a key stops at the one member that has it. */
  lemma {:induction false} KeyFound(fs: seq<Field>, end: string, i: nat, pat: string)
    requires FieldsOk(fs) && EndOk(end) && i < |fs| && PatternFor(pat, fs[i].key) && Absent(fs[..i], fs[i].key)
    ensures AfterFirst(Members(fs, end), pat) == AfterFirst(Members(fs[i..], end), pat)
    decreases i
  {
    hide AfterFirst, PatternFor, Members, EndOk;
    if i == 0 {
      assert fs[0..] == fs;
    } else {
      assert fs[..i][0] == fs[0];
      SkipField(fs, end, pat, fs[i].key);
      var r := fs[1..];
      assert r[..i - 1] == fs[..i][1..];
      assert r[i - 1..] == fs[i..];
      KeyFound(r, end, i - 1, pat);
    }
  }
}
