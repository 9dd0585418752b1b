/** state.json: how a status is written, and what the strict decoder makes of it at the next start. */
module StateFile {
  import opened Wrappers
  import opened JsonText
  import opened Lifecycle
  import opened LifecycleInvariant
  import opened LifecycleSafety
  import opened EngineCache
  import Bundle
  import CanonicalProfile
  import JsonGrammar
  import Utf8

  const MAX_TIME: nat := 35

  /** The time stamps of encoding/json: digits and five marks, at most as long as RFC 3339 with an offset. */
  datatype TimeText = TimeText(spell: nat -> string, parse: string -> Option<nat>) {
    ghost predicate Lawful() {
      forall n :: 0 <= n < CLOCK_END ==> |spell(n)| <= MAX_TIME && IsPlain(spell(n)) && parse(spell(n)) == Some(n)
    }
  }

  /** Text that is written as it is. */
  predicate IsPlain(s: string) {
    forall i :: 0 <= i < |s| ==> ' ' <= s[i] < 128 as char && s[i] !in "\"\\<>&"
  }

  // ----- json.Marshal -----

  /** A scalar as json.Marshal writes it, with what HTML could misread escaped. */
  function QuoteScalar(c: char): string {
    if c in "<>&" then "\\u00" + [HexDigit(c as int / 16), HexDigit(c as int % 16)]
    else if c == 0x2028 as char then "\\u2028"
    else if c == 0x2029 as char then "\\u2029"
    else QuoteChar(c)
  }

  /** A Go string as json.Marshal writes it: each byte that is not part of a scalar becomes an escape. */
  function QuoteBytes(b: Text): string {
    if b == [] then "" else
      var c := Utf8.DecodeChar(b);
      if c.None? then "\\ufffd" + QuoteBytes(b[1..])
      else
        Utf8.DecodeCharLength(b);
        QuoteScalar(c.value) + QuoteBytes(b[|Utf8.EncodeChar(c.value)|..])
  }

  const FIELDS: nat := 7

  function Field(n: nat): string {
    match n
    case 0 => "ready"
    case 1 => "revision"
    case 2 => "previous"
    case 3 => "source"
    case 4 => "etag"
    case 5 => "refreshed_at"
    case _ => "last_error"
  }

  /** The name of one of the first n fields. */
  predicate Names(k: string, n: nat) {
    exists i :: 0 <= i < n && Field(i) == k
  }

  /** The string fields that are left out when they are empty. */
  predicate Omits(n: nat) {
    n == 2 || n == 4 || n == 6
  }

  /** The contents of the string fields. */
  function Contents(tm: TimeText, s: Status, n: nat): Text {
    match n
    case 1 => Utf8.Encode(s.revision)
    case 2 => Utf8.Encode(s.previous)
    case 3 => s.source
    case 4 => s.etag
    case 5 => Utf8.Encode(tm.spell(s.refreshedAt))
    case _ => Utf8.Encode(s.lastError)
  }

  function FieldText(n: nat, b: Text): string
  {
    "," + (Quote(Field(n)) + (":" + ("\"" + (QuoteBytes(b) + "\""))))
  }

  function FieldsFrom(tm: TimeText, s: Status, n: nat): string
    requires n <= FIELDS
    decreases FIELDS - n
  {
    if n == FIELDS then "}"
    else
      var b := Contents(tm, s, n);
      (if Omits(n) && b == [] then "" else FieldText(n, b)) + FieldsFrom(tm, s, n + 1)
  }

  function Flag(b: bool): string {
    if b then "true" else "false"
  }

  function Marshal(tm: TimeText, s: Status): string {
    "{" + (Quote(Field(0)) + (":" + (Flag(s.ready) + FieldsFrom(tm, s, 1))))
  }

  // ----- strictJSON -----

  /** A string member; what is absent or null is empty. */
  function StringAt(m: map<string, Json>, n: nat): Option<string>
  {
    if Field(n) !in m || m[Field(n)].Null? then Some("")
    else if m[Field(n)].String? then Some(m[Field(n)].s) else None
  }

  function FlagAt(m: map<string, Json>, n: nat): Option<bool>
  {
    if Field(n) !in m || m[Field(n)].Null? then Some(false)
    else if m[Field(n)].Bool? then Some(m[Field(n)].b) else None
  }

  function TimeAt(tm: TimeText, m: map<string, Json>, n: nat): Option<nat>
  {
    if Field(n) !in m || m[Field(n)].Null? then Some(0)
    else if m[Field(n)].String? then tm.parse(m[Field(n)].s) else None
  }

  /** The status of a JSON value; unknown members and members of another type are refused. */
  function FromJson(tm: TimeText, v: Json): Option<Status> {
    if !v.Object? || exists k :: k in v.members && !Names(k, FIELDS) then None
    else
      var m := v.members;
      var ready, time := FlagAt(m, 0), TimeAt(tm, m, 5);
      var revision, previous, source, etag, error :=
        StringAt(m, 1), StringAt(m, 2), StringAt(m, 3), StringAt(m, 4), StringAt(m, 6);
      if ready.None? || time.None? || revision.None? || previous.None? || source.None? || etag.None? || error.None?
      then None
      else Some(Status(
        ready.value, revision.value, previous.value, Utf8.Encode(source.value), Utf8.Encode(etag.value),
        time.value, error.value))
  }

  /** A status written to state.json and read back, where both succeed. */
  function Restored(u: Unicode, tm: TimeText, s: Status): Option<Status> {
    if s.refreshedAt >= CLOCK_END || |Utf8.Encode(Marshal(tm, s))| > CanonicalProfile.MAX_BYTES then None
    else
      var v := JsonGrammar.ReadText(u, Marshal(tm, s));
      if v.None? then None else FromJson(tm, v.value)
  }

  /** No text of the status holds more marks in a row than the decoder admits. */
  predicate MarksOk(u: Unicode, s: Status) {
    && u.marksOk(Utf8.Repair(s.source)) && u.marksOk(Utf8.Repair(s.etag))
    && u.marksOk(s.revision) && u.marksOk(s.previous) && u.marksOk(s.lastError)
  }

  /** The text of the status is not longer than the decoder admits. */
  predicate Fits(tm: TimeText, s: Status) {
    |Utf8.Encode(Marshal(tm, s))| <= CanonicalProfile.MAX_BYTES
  }

  // ----- Reading what was written -----

  lemma UnquoteScalar(c: char, rest: string)
    ensures Unquote(QuoteScalar(c) + rest) == Prepend(c, Unquote(rest))
  {
    var q := QuoteScalar(c);
    var s := q + rest;
    if c in "<>&" || c == 0x2028 as char || c == 0x2029 as char {
      assert s[6..] == rest && s[0] == '\\' && s[1] == 'u';
      assert Hex4(s, 2) == Some(c as int);
      assert ReadEscape(s) == Done(c, rest);
    } else {
      UnquoteQuotedChar(c, rest);
    }
  }

  lemma UnquoteReplacement(rest: string)
    ensures Unquote("\\ufffd" + rest) == Prepend(0xFFFD as char, Unquote(rest))
  {
    var s := "\\ufffd" + rest;
    assert s[6..] == rest && s[0] == '\\' && s[1] == 'u';
    assert Hex4(s, 2) == Some(0xFFFD);
    assert ReadEscape(s) == Done(0xFFFD as char, rest);
  }

  lemma {:induction false} UnquoteBytes(b: Text, rest: string)
    ensures Unquote(QuoteBytes(b) + ("\"" + rest)) == Done(Utf8.Repair(b), rest)
  {
    var tail := "\"" + rest;
    if b == [] {
      assert QuoteBytes(b) + tail == tail && tail[1..] == rest;
    } else {
      var c := Utf8.DecodeChar(b);
      if c.Some? { Utf8.DecodeCharLength(b); }
      var head := if c.None? then "\\ufffd" else QuoteScalar(c.value);
      var more := b[if c.None? then 1 else |Utf8.EncodeChar(c.value)|..];
      assert QuoteBytes(b) + tail == head + (QuoteBytes(more) + tail);
      if c.None? {
        UnquoteReplacement(QuoteBytes(more) + tail);
      } else {
        UnquoteScalar(c.value, QuoteBytes(more) + tail);
      }
      UnquoteBytes(more, rest);
    }
  }

  lemma StringReads(u: Unicode, b: Text, rest: string)
    ensures JsonGrammar.ReadValue(u, "\"" + (QuoteBytes(b) + ("\"" + rest)), 1) ==
            if u.marksOk(Utf8.Repair(b)) then Done(String(Utf8.Repair(b)), rest) else Fail
  {
    var body := QuoteBytes(b) + ("\"" + rest);
    UnquoteBytes(b, rest);
    JsonGrammar.Braces("\"", body);
    hide Unquote, QuoteBytes, Utf8.Repair, ReadNumber;
    hide JsonGrammar.ReadMembers, JsonGrammar.ReadItems, JsonGrammar.ReadLiteral;
  }

  lemma FieldsDistinct(i: nat, j: nat)
    requires i < FIELDS && j < FIELDS && Field(i) == Field(j)
    ensures i == j
  {
    assert Field(1)[0] == 'r' && Field(2)[0] == 'p';
  }

  /** The members read before field n are those of the status written. */
  ghost predicate ReadSoFar(tm: TimeText, s: Status, n: nat, m: map<string, Json>)
    requires 1 <= n <= FIELDS
  {
    && FlagAt(m, 0) == Some(s.ready)
    && (forall i :: 1 <= i < n ==> StringAt(m, i) == Some(Utf8.Repair(Contents(tm, s, i))))
    && (5 < n ==> Field(5) in m && m[Field(5)].String?)
    && (forall k :: k in m ==> Names(k, n))
  }

  predicate FieldsOk(u: Unicode, tm: TimeText, s: Status, n: nat)
    requires 1 <= n <= FIELDS
  {
    forall i :: n <= i < FIELDS ==> u.marksOk(Utf8.Repair(Contents(tm, s, i)))
  }

  /** The text of a member whose value is a string, and what follows it. */
  function MemberText(n: nat, b: Text, rest: string): string {
    Quote(Field(n)) + (":" + ("\"" + (QuoteBytes(b) + ("\"" + rest))))
  }

  lemma FieldTextSplit(n: nat, b: Text, rest: string)
    ensures FieldText(n, b) + rest == "," + MemberText(n, b, rest)
  {
    hide Quote, Field, QuoteBytes;
  }

  lemma MemberReads(u: Unicode, n: nat, b: Text, m: map<string, Json>, rest: string)
    requires u.marksOk(Field(n)) && JsonGrammar.IsNew(u, Field(n), m)
    ensures JsonGrammar.ReadMembers(u, MemberText(n, b, rest), 0, m) ==
            if u.marksOk(Utf8.Repair(b))
            then JsonGrammar.MoreMembers(u, rest, 0, m[Field(n) := String(Utf8.Repair(b))])
            else Fail
  {
    hide Quote, Field, QuoteBytes, Utf8.Repair, JsonGrammar.ReadKey, JsonGrammar.ReadValue, JsonGrammar.MoreMembers;
    hide JsonGrammar.IsNew;
    JsonGrammar.KeyRoundTrip(u, Field(n), "\"" + (QuoteBytes(b) + ("\"" + rest)), m);
    StringReads(u, b, rest);
  }

  /** One field is read, or the text is refused. */
  lemma FieldReads(u: Unicode, tm: TimeText, s: Status, n: nat, m: map<string, Json>, rest: string)
    requires u.Lawful() && 1 <= n < FIELDS && ReadSoFar(tm, s, n, m)
    ensures var b := Contents(tm, s, n);
            JsonGrammar.MoreMembers(u, FieldText(n, b) + rest, 0, m) ==
            if u.marksOk(Utf8.Repair(b))
            then JsonGrammar.MoreMembers(u, rest, 0, m[Field(n) := String(Utf8.Repair(b))])
            else Fail
  {
    var member := MemberText(n, Contents(tm, s, n), rest);
    hide Contents, FieldText, MemberText, ReadSoFar, Field, Utf8.Repair, JsonGrammar.ReadMembers, JsonGrammar.IsNew;
    FieldTextSplit(n, Contents(tm, s, n), rest);
    JsonGrammar.Braces(",", member);
    NameIsNew(u, tm, s, n, m);
    MemberReads(u, n, Contents(tm, s, n), m, rest);
  }

  lemma NameIsNew(u: Unicode, tm: TimeText, s: Status, n: nat, m: map<string, Json>)
    requires u.Lawful() && 1 <= n < FIELDS && ReadSoFar(tm, s, n, m)
    ensures u.marksOk(Field(n)) && JsonGrammar.IsNew(u, Field(n), m)
  {
    assert forall i :: 0 <= i < FIELDS ==> IsAscii(Field(i));
    forall k | k in m
      ensures u.nfc(k) != u.nfc(Field(n))
    {
      var i :| 0 <= i < n && Field(i) == k;
      assert IsAscii(k);
      if k == Field(n) { FieldsDistinct(i, n); }
    }
  }

  /** Reading one more field keeps what was read. */
  lemma ReadOneMore(tm: TimeText, s: Status, n: nat, m: map<string, Json>)
    requires 1 <= n < FIELDS && ReadSoFar(tm, s, n, m)
    ensures ReadSoFar(tm, s, n + 1, m[Field(n) := String(Utf8.Repair(Contents(tm, s, n)))])
  {
    var v := m[Field(n) := String(Utf8.Repair(Contents(tm, s, n)))];
    hide Contents, Utf8.Repair, Field;
    forall i | 0 <= i < n
      ensures Field(i) != Field(n)
    {
      if Field(i) == Field(n) { FieldsDistinct(i, n); }
    }
  }

  lemma SkipsOne(tm: TimeText, s: Status, n: nat, m: map<string, Json>)
    requires 1 <= n < FIELDS && ReadSoFar(tm, s, n, m) && Omits(n) && Contents(tm, s, n) == []
    ensures ReadSoFar(tm, s, n + 1, m)
  {
    hide Contents;
    if Field(n) in m {
      var i :| 0 <= i < n && Field(i) == Field(n);
      FieldsDistinct(i, n);
    }
  }

  lemma OkFrom(u: Unicode, tm: TimeText, s: Status, n: nat)
    requires 1 <= n < FIELDS
    ensures FieldsOk(u, tm, s, n) <==>
            u.marksOk(Utf8.Repair(Contents(tm, s, n))) && FieldsOk(u, tm, s, n + 1)
  {
    hide Contents, Utf8.Repair;
  }

  lemma ObjectCloses(u: Unicode, tm: TimeText, s: Status, m: map<string, Json>)
    ensures FieldsFrom(tm, s, FIELDS) == "}" && FieldsOk(u, tm, s, FIELDS)
    ensures JsonGrammar.MoreMembers(u, "}", 0, m) == Done(Object(m), "")
  {
    assert SkipSpace("}") == "}" && "}"[1..] == "";
  }

  /** The members after field n, which is left out if it may be and is empty. */
  ghost function WithField(tm: TimeText, s: Status, n: nat, m: map<string, Json>): map<string, Json> {
    var b := Contents(tm, s, n);
    if Omits(n) && b == [] then m else m[Field(n) := String(Utf8.Repair(b))]
  }

  lemma FieldsSplit(tm: TimeText, s: Status, n: nat)
    requires n < FIELDS
    ensures var b := Contents(tm, s, n);
            FieldsFrom(tm, s, n) ==
            if Omits(n) && b == [] then FieldsFrom(tm, s, n + 1) else FieldText(n, b) + FieldsFrom(tm, s, n + 1)
  {
    hide Contents, FieldText;
    assert "" + FieldsFrom(tm, s, n + 1) == FieldsFrom(tm, s, n + 1);
  }

  lemma FieldsStep(u: Unicode, tm: TimeText, s: Status, n: nat, m: map<string, Json>)
    requires u.Lawful() && 1 <= n < FIELDS && ReadSoFar(tm, s, n, m)
    ensures JsonGrammar.MoreMembers(u, FieldsFrom(tm, s, n), 0, m) ==
            if u.marksOk(Utf8.Repair(Contents(tm, s, n)))
            then JsonGrammar.MoreMembers(u, FieldsFrom(tm, s, n + 1), 0, WithField(tm, s, n, m))
            else Fail
    ensures ReadSoFar(tm, s, n + 1, WithField(tm, s, n, m))
  {
    hide Contents, FieldText, FieldsFrom, ReadSoFar, Utf8.Repair, Field, JsonGrammar.MoreMembers, Unicode.Lawful;
    var b, rest := Contents(tm, s, n), FieldsFrom(tm, s, n + 1);
    FieldsSplit(tm, s, n);
    if Omits(n) && b == [] {
      SkipsOne(tm, s, n, m);
      EmptyText(u);
    } else {
      FieldReads(u, tm, s, n, m, rest);
      ReadOneMore(tm, s, n, m);
    }
  }

  /** The rest of the object, from field n on. */
  lemma {:induction false} FieldsRead(u: Unicode, tm: TimeText, s: Status, n: nat, m: map<string, Json>)
    requires u.Lawful() && 1 <= n <= FIELDS && ReadSoFar(tm, s, n, m)
    ensures var r := JsonGrammar.MoreMembers(u, FieldsFrom(tm, s, n), 0, m);
            if FieldsOk(u, tm, s, n)
            then r.Done? && r.rest == "" && r.value.Object? && ReadSoFar(tm, s, FIELDS, r.value.members)
            else r.Fail?
    decreases FIELDS - n
  {
    hide Contents, FieldsFrom, WithField, ReadSoFar, FieldsOk, Utf8.Repair, JsonGrammar.MoreMembers, Unicode.Lawful;
    if n == FIELDS {
      ObjectCloses(u, tm, s, m);
    } else {
      OkFrom(u, tm, s, n);
      FieldsStep(u, tm, s, n, m);
      FieldsRead(u, tm, s, n + 1, WithField(tm, s, n, m));
    }
  }

  /** What follows the name and the value of the first field. */
  lemma FlagReads(u: Unicode, ready: bool, rest: string)
    requires u.Lawful()
    ensures JsonGrammar.ReadValue(
              u, "{" + (Quote(Field(0)) + (":" + (Flag(ready) + rest))), 0) ==
            JsonGrammar.MoreMembers(u, rest, 0, map[Field(0) := Bool(ready)])
  {
    var value := Flag(ready) + rest;
    var body := Quote(Field(0)) + (":" + value);
    var empty: map<string, Json> := map[];
    assert body[0] == '"' && SkipSpace(body) == body;
    assert IsAscii(Field(0)) && empty[Field(0) := Bool(ready)] == map[Field(0) := Bool(ready)];
    JsonGrammar.ReadObject(u, body, 0);
    JsonGrammar.KeyRoundTrip(u, Field(0), value, empty);
    JsonGrammar.BoolRoundTrip(u, ready, 1, rest);
    hide Quote, JsonGrammar.ReadValue, JsonGrammar.ReadKey, JsonGrammar.MoreMembers;
  }

  lemma MarshalReads(u: Unicode, tm: TimeText, s: Status)
    requires u.Lawful()
    ensures var r := JsonGrammar.ReadText(u, Marshal(tm, s));
            if FieldsOk(u, tm, s, 1) then r.Some? && r.value.Object? && ReadSoFar(tm, s, FIELDS, r.value.members)
            else r.None?
  {
    hide Contents, FieldText, FieldsFrom, FieldsOk, Quote, JsonGrammar.ReadValue, JsonGrammar.MoreMembers;
    var m: map<string, Json> := map[Field(0) := Bool(s.ready)];
    assert ReadSoFar(tm, s, 1, m);
    hide ReadSoFar;
    FlagReads(u, s.ready, FieldsFrom(tm, s, 1));
    FieldsRead(u, tm, s, 1, m);
  }

  lemma PlainIsAscii(s: string)
    requires IsPlain(s)
    ensures IsAscii(s)
  {
  }

  lemma MarksOkExactly(u: Unicode, tm: TimeText, s: Status)
    requires u.Lawful() && tm.Lawful() && s.refreshedAt < CLOCK_END
    ensures MarksOk(u, s) <==> FieldsOk(u, tm, s, 1)
  {
    Utf8.RepairEncoded(s.revision);
    Utf8.RepairEncoded(s.previous);
    Utf8.RepairEncoded(tm.spell(s.refreshedAt));
    Utf8.RepairEncoded(s.lastError);
    PlainIsAscii(tm.spell(s.refreshedAt));
    hide Utf8.Repair, Utf8.Encode, IsAscii;
    assert FieldsOk(u, tm, s, 1) ==>
      u.marksOk(Utf8.Repair(Contents(tm, s, 1))) && u.marksOk(Utf8.Repair(Contents(tm, s, 2))) &&
      u.marksOk(Utf8.Repair(Contents(tm, s, 3))) && u.marksOk(Utf8.Repair(Contents(tm, s, 4))) &&
      u.marksOk(Utf8.Repair(Contents(tm, s, 6)));
  }

  lemma MembersRestore(tm: TimeText, s: Status, m: map<string, Json>)
    requires tm.Lawful() && s.refreshedAt < CLOCK_END && ReadSoFar(tm, s, FIELDS, m)
    ensures FromJson(tm, Object(m)) == Some(Cleaned(s))
  {
    Utf8.RepairEncoded(s.revision);
    Utf8.RepairEncoded(s.previous);
    Utf8.RepairEncoded(tm.spell(s.refreshedAt));
    Utf8.RepairEncoded(s.lastError);
    hide Utf8.Repair, Utf8.Encode, Names, Field;
    assert StringAt(m, 1) == Some(s.revision) && StringAt(m, 2) == Some(s.previous);
    assert StringAt(m, 5) == Some(tm.spell(s.refreshedAt)) && StringAt(m, 6) == Some(s.lastError);
    assert StringAt(m, 3) == Some(Utf8.Repair(s.source)) && StringAt(m, 4) == Some(Utf8.Repair(s.etag));
  }

  /**
   What is written comes back, with what is not UTF-8 replaced, exactly when its text is not too
   long and none of its texts has too many marks in a row; otherwise the whole file is refused.
   */
  lemma RestoredExactly(u: Unicode, tm: TimeText, s: Status)
    requires u.Lawful() && tm.Lawful() && s.refreshedAt < CLOCK_END
    ensures Restored(u, tm, s) == if Fits(tm, s) && MarksOk(u, s) then Some(Cleaned(s)) else None
  {
    hide Marshal, FieldsOk, MarksOk, ReadSoFar, FromJson, Cleaned, Utf8.Encode, JsonGrammar.ReadText;
    MarshalReads(u, tm, s);
    MarksOkExactly(u, tm, s);
    if FieldsOk(u, tm, s, 1) {
      MembersRestore(tm, s, JsonGrammar.ReadText(u, Marshal(tm, s)).value.members);
    }
  }

  // ----- How long the text is -----

  lemma {:induction false} PlainText(s: string)
    requires IsPlain(s)
    ensures |Utf8.Encode(s)| == |s| && QuoteBytes(Utf8.Encode(s)) == s && QuoteBody(s) == s
  {
    if s != "" {
      PlainText(s[1..]);
      QuotesOne(s[0], s[1..]);
      assert s == [s[0]] + s[1..];
    }
  }

  lemma QuotesOne(c: char, rest: string)
    ensures QuoteBytes(Utf8.Encode([c] + rest)) == QuoteScalar(c) + QuoteBytes(Utf8.Encode(rest))
  {
    var x, y := Utf8.EncodeChar(c), Utf8.Encode(rest);
    assert ([c] + rest)[1..] == rest;
    Utf8.DecodeCharEncoded(c, y);
    assert (x + y)[|x|..] == y;
  }

  ghost function ContentsSize(b: Text): nat {
    |Utf8.Encode(QuoteBytes(b))|
  }

  ghost function FieldSize(n: nat, b: Text): nat {
    if Omits(n) && b == [] then 0 else |Field(n)| + 6 + ContentsSize(b)
  }

  lemma FieldsPlain(n: nat)
    ensures IsPlain(Field(n)) && |Field(0)| == 5
  {
    match n
    case 0 =>
    case 1 =>
    case 2 =>
    case 3 =>
    case 4 =>
    case 5 =>
    case _ =>
  }

  lemma NameSize(n: nat)
    ensures |Utf8.Encode(Quote(Field(n)))| == |Field(n)| + 2 && |Field(0)| == 5
  {
    var name := Field(n);
    FieldsPlain(n);
    hide Field;
    PlainText(name);
    MarksAreBytes();
    hide Utf8.Encode, QuoteBody, QuoteBytes, IsPlain;
    assert Quote(name) == "\"" + (name + "\"");
    Utf8.EncodeAppend(name, "\"");
    Utf8.EncodeAppend("\"", name + "\"");
  }

  lemma FieldTextSize(n: nat, b: Text)
    ensures |Utf8.Encode(FieldText(n, b))| == |Field(n)| + 6 + ContentsSize(b)
  {
    hide Utf8.Encode, Quote, Field, QuoteBytes;
    var name, body := Quote(Field(n)), QuoteBytes(b);
    NameSize(n);
    MarksAreBytes();
    Utf8.EncodeAppend(body, "\"");
    Utf8.EncodeAppend("\"", body + "\"");
    Utf8.EncodeAppend(":", "\"" + (body + "\""));
    Utf8.EncodeAppend(name, ":" + ("\"" + (body + "\"")));
    Utf8.EncodeAppend(",", name + (":" + ("\"" + (body + "\""))));
  }

  lemma MarksAreBytes()
    ensures |Utf8.Encode("\"")| == |Utf8.Encode(",")| == |Utf8.Encode(":")| == 1
    ensures |Utf8.Encode("{")| == |Utf8.Encode("}")| == 1
  {
    assert IsPlain(",") && IsPlain(":") && IsPlain("{") && IsPlain("}");
    PlainText(",");
    PlainText(":");
    PlainText("{");
    PlainText("}");
    assert "\""[1..] == "";
  }

  ghost function SizeFrom(tm: TimeText, s: Status, n: nat): nat
    requires n <= FIELDS
    decreases FIELDS - n
  {
    if n == FIELDS then 1 else FieldSize(n, Contents(tm, s, n)) + SizeFrom(tm, s, n + 1)
  }

  lemma {:induction false} FieldsSize(tm: TimeText, s: Status, n: nat)
    requires n <= FIELDS
    ensures |Utf8.Encode(FieldsFrom(tm, s, n))| == SizeFrom(tm, s, n)
    decreases FIELDS - n
  {
    if n == FIELDS {
      MarksAreBytes();
    } else {
      hide Contents, FieldText, Field, ContentsSize, Utf8.Encode;
      var b, rest := Contents(tm, s, n), FieldsFrom(tm, s, n + 1);
      FieldsSize(tm, s, n + 1);
      FieldTextSize(n, b);
      Utf8.EncodeAppend(FieldText(n, b), rest);
      assert "" + rest == rest;
    }
  }

  lemma FlagSize(ready: bool)
    ensures |Utf8.Encode(Flag(ready))| == if ready then 4 else 5
  {
    PlainText(Flag(ready));
    hide Utf8.Encode, QuoteBytes, QuoteBody, IsPlain;
  }

  lemma MarshalSize(tm: TimeText, s: Status)
    ensures |Utf8.Encode(Marshal(tm, s))| == 9 + (if s.ready then 4 else 5) + SizeFrom(tm, s, 1)
  {
    hide Utf8.Encode, FieldsFrom, SizeFrom, Quote, Field, Flag;
    var name, flag, rest := Quote(Field(0)), Flag(s.ready), FieldsFrom(tm, s, 1);
    FieldsSize(tm, s, 1);
    FlagSize(s.ready);
    NameSize(0);
    MarksAreBytes();
    Utf8.EncodeAppend(flag, rest);
    Utf8.EncodeAppend(":", flag + rest);
    Utf8.EncodeAppend(name, ":" + (flag + rest));
    Utf8.EncodeAppend("{", name + (":" + (flag + rest)));
  }

  lemma SizeSum(tm: TimeText, s: Status)
    ensures SizeFrom(tm, s, 1) ==
            FieldSize(1, Utf8.Encode(s.revision)) + FieldSize(2, Utf8.Encode(s.previous)) + FieldSize(3, s.source) +
            FieldSize(4, s.etag) + FieldSize(5, Utf8.Encode(tm.spell(s.refreshedAt))) +
            FieldSize(6, Utf8.Encode(s.lastError)) + 1
  {
    hide FieldSize, Utf8.Encode;
    assert SizeFrom(tm, s, 5) == FieldSize(5, Contents(tm, s, 5)) + FieldSize(6, Contents(tm, s, 6)) + 1;
    assert SizeFrom(tm, s, 3) == FieldSize(3, s.source) + FieldSize(4, s.etag) + SizeFrom(tm, s, 5);
  }

  /** Replacing what is not UTF-8 makes no text longer, since the escape is longer than the scalar. */
  lemma {:induction false} CleanedContents(b: Text)
    ensures ContentsSize(Utf8.Clean(b)) <= ContentsSize(b)
  {
    if b != [] {
      var c := Utf8.DecodeChar(b);
      if c.Some? { Utf8.DecodeCharLength(b); }
      var one := if c.None? then 0xFFFD as char else c.value;
      var more := b[if c.None? then 1 else |Utf8.EncodeChar(c.value)|..];
      assert Utf8.Repair(b) == [one] + Utf8.Repair(more);
      CleanedContents(more);
      QuotesOne(one, Utf8.Repair(more));
      Utf8.EncodeAppend(QuoteScalar(one), QuoteBytes(Utf8.Clean(more)));
      if c.None? {
        Utf8.EncodeAppend("\\ufffd", QuoteBytes(more));
        PlainEscape();
      } else {
        Utf8.EncodeAppend(QuoteScalar(one), QuoteBytes(more));
      }
      hide Utf8.Encode, QuoteScalar, Utf8.DecodeChar, Utf8.EncodeChar;
    }
  }

  lemma PlainEscape()
    ensures |Utf8.Encode(QuoteScalar(0xFFFD as char))| <= 4 && |Utf8.Encode("\\ufffd")| >= 6
  {
    assert QuoteScalar(0xFFFD as char) == [0xFFFD as char];
    Utf8.EncodeLength([0xFFFD as char]);
    Utf8.EncodeLength("\\ufffd");
    hide Utf8.Encode;
  }

  // ----- What the lifecycle relies on -----

  /** The environment's notion of reading state.json back is the one of this module. */
  ghost predicate Faithful(e: Environment, u: Unicode, tm: TimeText) {
    forall s :: e.reload(s) == Restored(u, tm, s)
  }

  lemma CleanedFits(tm: TimeText, s: Status)
    ensures |Utf8.Encode(Marshal(tm, Cleaned(s)))| <= |Utf8.Encode(Marshal(tm, s))|
  {
    MarshalSize(tm, s);
    MarshalSize(tm, Cleaned(s));
    SizeSum(tm, s);
    SizeSum(tm, Cleaned(s));
    CleanedContents(s.source);
    CleanedContents(s.etag);
    Utf8.CleanRepairs(s.etag);
    hide Utf8.Encode, Utf8.Clean, ContentsSize, Marshal, SizeFrom;
  }

  lemma CleanedRestores(u: Unicode, tm: TimeText, s: Status)
    requires u.Lawful() && tm.Lawful() && Restored(u, tm, s).Some?
    ensures Restored(u, tm, s) == Restored(u, tm, Cleaned(s)) == Some(Cleaned(s))
  {
    RestoredExactly(u, tm, s);
    RestoredExactly(u, tm, Cleaned(s));
    CleanedFits(tm, s);
    Utf8.CleanRepairs(s.source);
    Utf8.CleanRepairs(s.etag);
    hide Utf8.Encode, Utf8.Clean, Utf8.Repair, Marshal, Restored;
  }

  lemma PlainSize(s: string)
    requires IsPlain(s)
    ensures ContentsSize(Utf8.Encode(s)) == |s| && IsAscii(s)
  {
    PlainText(s);
  }

  lemma DigestPlain(r: Revision)
    requires Bundle.IsDigest(r)
    ensures |r| == 71 && IsPlain(r) && IsPlain("rollback:" + r)
  {
    assert forall i :: 0 <= i < 7 ==> r[i] == Bundle.DIGEST_PREFIX[i];
  }

  lemma RecoveredPlain()
    ensures |RECOVERED_PREVIOUS| == 28 && IsPlain(RECOVERED_PREVIOUS)
  {
  }

  /** The sizes of the parts of a status as operations write it, and that their marks are few. */
  lemma WritableSize(u: Unicode, tm: TimeText, s: Status)
    requires u.Lawful() && tm.Lawful() && Writable(s)
    ensures ContentsSize(Utf8.Encode(s.revision)) == 71
    ensures ContentsSize(Utf8.Encode(tm.spell(s.refreshedAt))) <= MAX_TIME
    ensures s.previous != "" ==> ContentsSize(Utf8.Encode(s.previous)) == 71
    ensures s.lastError != "" ==> ContentsSize(Utf8.Encode(s.lastError)) == 28
    ensures u.marksOk(s.revision) && u.marksOk(s.previous) && u.marksOk(s.lastError)
  {
    DigestPlain(s.revision);
    PlainSize(s.revision);
    if s.previous != "" {
      DigestPlain(s.previous);
      PlainSize(s.previous);
    }
    RecoveredPlain();
    PlainSize(RECOVERED_PREVIOUS);
    assert IsAscii("");
    hide Bundle.IsDigest, IsPlain, IsAscii, ContentsSize, Utf8.Encode;
    PlainSize(tm.spell(s.refreshedAt));
  }

  lemma TotalSize(tm: TimeText, s: Status)
    requires s.ready
    ensures |Utf8.Encode(Marshal(tm, s))| == 14 +
            FieldSize(1, Utf8.Encode(s.revision)) + FieldSize(2, Utf8.Encode(s.previous)) + FieldSize(3, s.source) +
            FieldSize(4, s.etag) + FieldSize(5, Utf8.Encode(tm.spell(s.refreshedAt))) +
            FieldSize(6, Utf8.Encode(s.lastError))
  {
    hide Utf8.Encode, FieldSize, Marshal, SizeFrom;
    MarshalSize(tm, s);
    SizeSum(tm, s);
  }

  lemma EmptyText(u: Unicode)
    requires u.Lawful()
    ensures Utf8.Encode("") == [] && Utf8.Repair([]) == "" && u.marksOk("") && ContentsSize([]) == 0
  {
    assert IsAscii("");
  }

  lemma FieldSizes(b: Text)
    ensures FieldSize(1, b) == 14 + ContentsSize(b) && FieldSize(3, b) == 12 + ContentsSize(b)
    ensures FieldSize(2, b) == if b == [] then 0 else 14 + ContentsSize(b)
    ensures FieldSize(4, b) == if b == [] then 0 else 10 + ContentsSize(b)
    ensures FieldSize(5, b) == 18 + ContentsSize(b)
    ensures FieldSize(6, b) == if b == [] then 0 else 16 + ContentsSize(b)
  {
    hide ContentsSize;
  }

  /** The size of a status as operations write it. */
  lemma WrittenSize(u: Unicode, tm: TimeText, s: Status)
    requires u.Lawful() && tm.Lawful() && Writable(s)
    ensures |Utf8.Encode(Marshal(tm, s))| == 99 + (if s.previous == "" then 0 else 85) + FieldSize(3, s.source) +
            FieldSize(4, s.etag) + FieldSize(5, Utf8.Encode(tm.spell(s.refreshedAt))) +
            (if s.lastError == "" then 0 else 44)
    ensures FieldSize(5, Utf8.Encode(tm.spell(s.refreshedAt))) <= 53
  {
    hide Utf8.Encode, ContentsSize, FieldSize, Marshal, Bundle.IsDigest, Unicode.Lawful, TimeText.Lawful;
    TotalSize(tm, s);
    WritableSize(u, tm, s);
    EmptyText(u);
    FieldSizes(Utf8.Encode(s.revision));
    FieldSizes(Utf8.Encode(s.previous));
    FieldSizes(Utf8.Encode(tm.spell(s.refreshedAt)));
    FieldSizes(Utf8.Encode(s.lastError));
  }

  lemma FallbackFits(u: Unicode, tm: TimeText, s: Status)
    requires u.Lawful() && tm.Lawful() && Writable(s) && s.previous != ""
    ensures |Utf8.Encode(Marshal(tm, Recovered(s, s.previous, true)))| <= |Utf8.Encode(Marshal(tm, s))|
  {
    hide Utf8.Encode, ContentsSize, FieldSize, Marshal, Bundle.IsDigest, Unicode.Lawful, TimeText.Lawful;
    FieldSizes([]);
    WrittenSize(u, tm, s);
    WrittenSize(u, tm, Recovered(s, s.previous, true));
  }

  /** The fallback of a status that was read back is not longer, and can be read back as well. */
  lemma FallbackRestores(u: Unicode, tm: TimeText, s: Status)
    requires u.Lawful() && tm.Lawful() && Writable(s) && s.previous != "" && Restored(u, tm, s).Some?
    ensures Restored(u, tm, Recovered(Cleaned(s), s.previous, true)).Some?
  {
    hide Utf8.Clean, Utf8.Repair, Utf8.Encode, Marshal, Restored, Bundle.IsDigest, Unicode.Lawful, TimeText.Lawful;
    hide ContentsSize;
    var t := Cleaned(s);
    var f := Recovered(t, s.previous, true);
    CleanedRestores(u, tm, s);
    RestoredExactly(u, tm, t);
    RestoredExactly(u, tm, f);
    FallbackFits(u, tm, t);
    WritableSize(u, tm, f);
    EmptyText(u);
  }

  lemma PlainStatusFits(u: Unicode, tm: TimeText, s: Status)
    requires u.Lawful() && tm.Lawful() && Writable(s)
    requires (s.source == RollbackSource(s.revision) || s.source == []) && s.etag == []
    ensures Fits(tm, s)
  {
    hide Utf8.Encode, ContentsSize, FieldSize, Marshal, Bundle.IsDigest, IsPlain, Unicode.Lawful, TimeText.Lawful;
    WrittenSize(u, tm, s);
    EmptyText(u);
    FieldSizes([]);
    FieldSizes(s.source);
    DigestPlain(s.revision);
    PlainSize("rollback:" + s.revision);
  }

  /** A status without texts of its own, or with the source of a rollback, can always be read back. */
  lemma PlainStatusRestores(u: Unicode, tm: TimeText, s: Status)
    requires u.Lawful() && tm.Lawful() && Writable(s)
    requires (s.source == RollbackSource(s.revision) || s.source == []) && s.etag == []
    ensures Restored(u, tm, s).Some?
  {
    RestoredExactly(u, tm, s);
    PlainStatusFits(u, tm, s);
    WritableSize(u, tm, s);
    EmptyText(u);
    DigestPlain(s.revision);
    PlainIsAscii("rollback:" + s.revision);
    Utf8.RepairEncoded("rollback:" + s.revision);
    hide Utf8.Repair, Utf8.Encode, Fits, Restored, IsPlain, IsAscii, Bundle.IsDigest, TimeText.Lawful;
  }

  lemma FaithfulReloads(e: Environment, u: Unicode, tm: TimeText)
    requires u.Lawful() && tm.Lawful() && Faithful(e, u, tm)
    ensures forall s :: e.Reloads(s)
  {
    forall s
      ensures e.Reloads(s)
    {
      hide Restored, Writable, RollbackSource, Recovered, Cleaned, Unicode.Lawful, TimeText.Lawful;
      assert e.reload(s) == Restored(u, tm, s) && e.reload(Cleaned(s)) == Restored(u, tm, Cleaned(s));
      if e.reload(s).Some? {
        CleanedRestores(u, tm, s);
        if Writable(s) && s.previous != "" { FallbackRestores(u, tm, s); }
      }
      if Writable(s) && (s.source == RollbackSource(s.revision) || s.source == []) && s.etag == [] {
        PlainStatusRestores(u, tm, s);
      }
    }
  }

  predicate TextsOk(u: Unicode, source: Text, etag: Text) {
    u.marksOk(Utf8.Repair(source)) && u.marksOk(Utf8.Repair(etag))
  }

  /** What an operation writes can be read back iff its texts have few marks and it is not too long. */
  lemma WrittenReloads(e: Environment, u: Unicode, tm: TimeText, s: Status)
    requires u.Lawful() && tm.Lawful() && Faithful(e, u, tm) && Writable(s)
    ensures e.reload(s).Some? <==> Fits(tm, s) && TextsOk(u, s.source, s.etag)
  {
    hide Restored, Fits, Bundle.IsDigest, Unicode.Lawful, TimeText.Lawful;
    assert e.reload(s) == Restored(u, tm, s);
    RestoredExactly(u, tm, s);
    WritableSize(u, tm, s);
  }

  /** Bytes sealing to the durable revision were supplied with its texts, as they are or were before a restart. */
  ghost predicate Brought(e: Environment, run: seq<Action>, i: nat, given: Supply, s: Status)
    requires i < |run|
  {
    SuppliedAt(e, run, i, given) && SuppliedAs(s.source, s.etag, given) && e.seals(given.archive) == Some(s.revision)
  }

  lemma SuppliedMarks(u: Unicode, s: Status, given: Supply)
    requires SuppliedAs(s.source, s.etag, given)
    ensures TextsOk(u, s.source, s.etag) <==> TextsOk(u, given.source, given.etag)
  {
    Utf8.CleanRepairs(given.source);
    Utf8.CleanRepairs(given.etag);
  }

  /**
   After any run, a crash and a start: the state file is accepted iff there is none, or it stems
   from a rollback or a fallback, or it is short enough and the source and the tag that came
   with the bytes have no mark run that the decoder refuses. Nothing checked them before.
   */
  lemma RestartsExactly(e: Environment, u: Unicode, tm: TimeText, run: seq<Action>)
    requires e.Lawful() && u.Lawful() && tm.Lawful() && Faithful(e, u, tm)
    ensures var w := Run(e, run);
            Step(e, Step(e, w, Crash), Boot).process.Up? <==>
            || w.disk.state.None? || w.history.durableOrigin != Supplied
            || (Fits(tm, w.disk.state.value) &&
                exists i, given ::
                  && 0 <= i < |run| && Brought(e, run, i, given, w.disk.state.value)
                  && TextsOk(u, given.source, given.etag))
  {
    hide Run, Step, Fits, TextsOk, SuppliedAt, SuppliedAs;
    var w := Run(e, run);
    RestartRefusedExactly(e, run);
    if w.disk.state.Some? {
      var s := w.disk.state.value;
      DurableTexts(e, run);
      if w.history.durableOrigin == Supplied {
        WrittenReloads(e, u, tm, s);
        var given: Supply, i :| SuppliedAs(s.source, s.etag, given) && e.seals(given.archive) == Some(s.revision) &&
                                0 <= i < |run| && SuppliedAt(e, run, i, given);
        assert Brought(e, run, i, given, s);
        forall i: nat, given | i < |run| && Brought(e, run, i, given, s)
          ensures TextsOk(u, s.source, s.etag) <==> TextsOk(u, given.source, given.etag)
        {
          SuppliedMarks(u, s, given);
        }
      }
    }
  }

  lemma {:induction false} AccentsSize(n: nat)
    ensures |Utf8.Encode(seq(n, _ => 0x301 as char))| == 2 * n
  {
    if n > 0 {
      var s := seq(n, _ => 0x301 as char);
      assert s[1..] == seq(n - 1, _ => 0x301 as char);
      AccentsSize(n - 1);
    }
  }

  /** What is refused once is refused for good: nothing but a running process writes the directory. */
  lemma {:induction false} RefusedForGood(e: Environment, run: seq<Action>, more: seq<Action>)
    requires Run(e, run).disk.state.Some? && e.reload(Run(e, run).disk.state.value).None?
    ensures Run(e, run + [Crash] + more) == Run(e, run).(process := Down)
  {
    if more == [] {
      RunSnoc(e, run, Crash);
      assert run + [Crash] + more == run + [Crash];
    } else {
      var most, a := more[..|more| - 1], more[|more| - 1];
      RefusedForGood(e, run, most);
      RunSnoc(e, run + [Crash] + most, a);
      assert run + [Crash] + more == run + [Crash] + most + [a];
      hide Run;
    }
  }

  /** After a crash no process ever starts over the directory again. */
  ghost predicate NeverStarts(e: Environment, run: seq<Action>) {
    forall more :: Run(e, run + [Crash] + more).process.Down?
  }

  lemma RefusedNeverStarts(e: Environment, run: seq<Action>)
    requires Run(e, run).disk.state.Some? && e.reload(Run(e, run).disk.state.value).None?
    ensures NeverStarts(e, run)
  {
    hide Run, Step;
    forall more
      ensures Run(e, run + [Crash] + more).process.Down?
    {
      RefusedForGood(e, run, more);
    }
  }

  /**
   So a first activation with a tag of 31 combining accents, 62 bytes, succeeds and reports no
   error, and no later process starts over that directory.
   */
  lemma AccentedTagStrands(e: Environment, u: Unicode, tm: TimeText, a: Archive, r: Revision, now: Clock)
    requires e.Lawful() && u.Lawful() && tm.Lawful() && Faithful(e, u, tm)
    requires e.seals(a) == Some(r) && e.compiles(r) && e.passes(r)
    ensures exists run :: Stranded(e, run, r) && Run(e, run).process.active.etag == Utf8.Encode(ACCENTS)
    ensures |Utf8.Encode(ACCENTS)| == 62
  {
    hide Run, Step, Restored, IsAscii, TimeText.Lawful, NeverStarts;
    AccentsSize(31);
    Utf8.RepairEncoded(ACCENTS);
    var run := FirstRun(e, a, [], Utf8.Encode(ACCENTS), r, now);
    var s := Run(e, run).process.active;
    DurableTexts(e, run);
    WrittenReloads(e, u, tm, s);
    RefusedNeverStarts(e, run);
    assert Stranded(e, run, r);
  }

  /** The revision is active and durable, without an error, and no later process starts. */
  ghost predicate Stranded(e: Environment, run: seq<Action>, r: Revision) {
    var w := Run(e, run);
    && w.process.Up? && w.process.writer.Idle? && w.process.active.revision == r && w.process.active.lastError == ""
    && w.disk.state == Some(w.process.active) && NeverStarts(e, run)
  }

  // ----- The text, name by name -----

  function MemberSpelled(name: string, b: Text): string {
    ",\"" + (name + ("\":\"" + (QuoteBytes(b) + "\"")))
  }

  function Optional(name: string, b: Text): string {
    if b == [] then "" else MemberSpelled(name, b)
  }

  lemma {:induction false} PlainBody(s: string)
    requires IsPlain(s)
    ensures QuoteBody(s) == s
  {
    if s != "" {
      PlainBody(s[1..]);
      assert QuoteChar(s[0]) == [s[0]];
      assert s == [s[0]] + s[1..];
    }
  }

  lemma FieldPlain(n: nat)
    ensures IsPlain(Field(n))
  {
    match n
    case 0 => PlainWord("ready");
    case 1 => PlainWord("revision");
    case 2 => PlainWord("previous");
    case 3 => PlainWord("source");
    case 4 => PlainWord("etag");
    case 5 => PlainWord("refreshed_at");
    case _ => PlainWord("last_error");
  }

  /** Small letters and underscores. */
  lemma PlainWord(s: string)
    requires forall i :: 0 <= i < |s| ==> 'a' <= s[i] <= 'z' || s[i] == '_'
    ensures IsPlain(s)
  {
  }

  lemma FieldSpelled(n: nat, b: Text)
    ensures Quote(Field(n)) == "\"" + Field(n) + "\"" && FieldText(n, b) == MemberSpelled(Field(n), b)
  {
    hide QuoteBytes, Quote, Field, IsPlain;
    FieldPlain(n);
    QuotePlain(Field(n));
    MarksJoin(Field(n), QuoteBytes(b));
  }

  lemma QuotePlain(s: string)
    requires IsPlain(s)
    ensures Quote(s) == "\"" + s + "\""
  {
    hide QuoteBody, IsPlain;
    PlainBody(s);
  }

  lemma MarksJoin(name: string, q: string)
    ensures "," + (("\"" + name + "\"") + (":" + ("\"" + (q + "\"")))) == ",\"" + (name + ("\":\"" + (q + "\"")))
  {
    var end := q + "\"";
    assert "\":\"" + end == "\"" + (":" + ("\"" + end));
    assert ",\"" + (name + ("\"" + (":" + ("\"" + end)))) == "," + ("\"" + (name + ("\"" + (":" + ("\"" + end)))));
    assert ("\"" + name + "\"") + (":" + ("\"" + end)) == "\"" + (name + ("\"" + (":" + ("\"" + end))));
  }

  lemma HeadSpelled(rest: string)
    ensures "{" + (("\"" + "ready" + "\"") + (":" + rest)) == "{\"ready\":" + rest
  {
  }

  lemma FieldsSpelled(tm: TimeText, s: Status, n: nat)
    requires 1 <= n < FIELDS
    ensures FieldsFrom(tm, s, n) ==
            (if n == 2 || n == 4 || n == 6 then Optional(Field(n), Contents(tm, s, n))
             else MemberSpelled(Field(n), Contents(tm, s, n))) + FieldsFrom(tm, s, n + 1)
  {
    FieldSpelled(n, Contents(tm, s, n));
    hide FieldText, MemberSpelled, Field, Contents;
  }

  /** state.json, member by member; an empty previous revision, entity tag and error are left out. */
  lemma MarshalText(tm: TimeText, s: Status)
    ensures Marshal(tm, s) ==
            "{\"ready\":" + ((if s.ready then "true" else "false") +
            (MemberSpelled("revision", Utf8.Encode(s.revision)) +
            (Optional("previous", Utf8.Encode(s.previous)) +
            (MemberSpelled("source", s.source) +
            (Optional("etag", s.etag) +
            (MemberSpelled("refreshed_at", Utf8.Encode(tm.spell(s.refreshedAt))) +
            (Optional("last_error", Utf8.Encode(s.lastError)) + "}")))))))
  {
    hide FieldsFrom, MemberSpelled, Optional, Utf8.Encode, Quote, FieldText;
    FieldSpelled(0, []);
    FieldsSpelled(tm, s, 1);
    FieldsSpelled(tm, s, 2);
    FieldsSpelled(tm, s, 3);
    FieldsSpelled(tm, s, 4);
    FieldsSpelled(tm, s, 5);
    FieldsSpelled(tm, s, 6);
    FieldsEnd(tm, s);
    HeadSpelled(Flag(s.ready) + FieldsFrom(tm, s, 1));
  }

  lemma FieldsEnd(tm: TimeText, s: Status)
    ensures FieldsFrom(tm, s, 7) == "}"
  {
  }

  /** What HTML could misread is escaped, and nothing else differs from the canonical printer. */
  lemma ScalarsSpelled(c: char)
    ensures QuoteScalar('<') == "\\u003c" && QuoteScalar('>') == "\\u003e" && QuoteScalar('&') == "\\u0026"
    ensures QuoteScalar(0x2028 as char) == "\\u2028" && QuoteScalar(0x2029 as char) == "\\u2029"
    ensures c !in ['<', '>', '&', 0x2028 as char, 0x2029 as char] ==> QuoteScalar(c) == QuoteChar(c)
  {
  }
}
