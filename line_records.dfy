/** The change file of `FileChanges`: one record `kind,name,payload\n`
    per operation, where `name` is the UTF-8 encoding of the task name
    and `payload` is `pickle.dumps(task)` for an add and `null` for a
    delete. Reading follows the code: iterate over the lines, `strip()`
    each, `split(b',')`, and keep only the `add` and `delete` lines. */
module LineRecords {
  import opened Values
  import opened Tasks
  import Utf8

  const Comma: byte := 44
  const Newline: byte := 10

  /** `b'add'`, `b'delete'` and `b'null'`. */
  const AddKind: seq<byte> := [97, 100, 100]
  const DeleteKind: seq<byte> := [100, 101, 108, 101, 116, 101]
  const NullPayload: seq<byte> := [110, 117, 108, 108]

  /** The ASCII whitespace that `bytes.strip()` removes. */
  predicate IsSpace(b: byte) {
    b == 32 || 9 <= b <= 13
  }

  /** `b'%s,%s,%s\n' % (kind, name, payload)`. */
  function Record(kind: seq<byte>, name: seq<byte>, payload: seq<byte>): seq<byte> {
    kind + [Comma] + name + [Comma] + payload + [Newline]
  }

  // ---------------------------------------------------------------------
  // Reading: line iteration, strip, split

  /** The length of the first line of `buf`, its newline included. */
  function LineLength(buf: seq<byte>): (k: nat)
    requires buf != []
    ensures 1 <= k <= |buf|
  {
    if buf[0] == Newline || |buf| == 1 then 1 else 1 + LineLength(buf[1..])
  }

  /** The bytes of a sequence of lines, one after the other. */
  function Join(lines: seq<seq<byte>>): seq<byte> {
    if lines == [] then [] else lines[0] + Join(lines[1..])
  }

  /** The lines that iterating over a binary file yields: each ends with
      its newline, except possibly the last. */
  function Lines(buf: seq<byte>): seq<seq<byte>>
    decreases |buf|
  {
    if buf == [] then []
    else
      var k := LineLength(buf);
      [buf[..k]] + Lines(buf[k..])
  }

  /** The lines are never empty and together they are the whole file. */
  lemma {:induction false} LinesJoin(buf: seq<byte>)
    ensures Join(Lines(buf)) == buf
    ensures forall i :: 0 <= i < |Lines(buf)| ==> Lines(buf)[i] != []
    decreases |buf|
  {
    if buf != [] {
      var k := LineLength(buf);
      var r := Lines(buf);
      LinesJoin(buf[k..]);
      assert r[0] == buf[..k] && r[1..] == Lines(buf[k..]);
      assert forall i :: 0 < i < |r| ==> r[i] == Lines(buf[k..])[i - 1];
      assert buf[..k] + buf[k..] == buf;
    }
  }

  function StripLeft(s: seq<byte>): seq<byte> {
    if s != [] && IsSpace(s[0]) then StripLeft(s[1..]) else s
  }

  function StripRight(s: seq<byte>): seq<byte> {
    if s != [] && IsSpace(s[|s| - 1]) then StripRight(s[..|s| - 1]) else s
  }

  /** `bytes.strip()`. */
  function Strip(s: seq<byte>): seq<byte> {
    StripRight(StripLeft(s))
  }

  /** `StripLeft` drops a prefix of whitespace and stops at the first
      byte that is not whitespace. */
  lemma {:induction false} StripLeftDropsSpace(s: seq<byte>)
    ensures var r := StripLeft(s);
      && |r| <= |s| && r == s[|s| - |r|..]
      && (forall i :: 0 <= i < |s| - |r| ==> IsSpace(s[i]))
      && (r != [] ==> !IsSpace(r[0]))
  {
    if s != [] && IsSpace(s[0]) {
      var t := StripLeft(s[1..]);
      StripLeftDropsSpace(s[1..]);
      assert s[1..][|s| - 1 - |t|..] == s[|s| - |t|..];
      assert forall i :: 0 < i < |s| - |t| ==> s[i] == s[1..][i - 1];
    }
  }

  /** `StripRight` drops a suffix of whitespace and stops at the last
      byte that is not whitespace. */
  lemma {:induction false} StripRightDropsSpace(s: seq<byte>)
    ensures var r := StripRight(s);
      && |r| <= |s| && r == s[..|r|]
      && (forall i :: |r| <= i < |s| ==> IsSpace(s[i]))
      && (r != [] ==> !IsSpace(r[|r| - 1]))
  {
    if s != [] && IsSpace(s[|s| - 1]) {
      var t := StripRight(s[..|s| - 1]);
      StripRightDropsSpace(s[..|s| - 1]);
      assert s[..|s| - 1][..|t|] == s[..|t|];
      assert forall i :: |t| <= i < |s| - 1 ==> s[i] == s[..|s| - 1][i];
    }
  }

  /** `bytes.strip()` leaves a line that neither starts nor ends with
      whitespace; a line that does not is kept as it is, and stripping
      twice is stripping once. */
  lemma StripTrims(s: seq<byte>)
    ensures var r := Strip(s);
      && |r| <= |s|
      && (r != [] ==> !IsSpace(r[0]) && !IsSpace(r[|r| - 1]))
      && ((s == [] || (!IsSpace(s[0]) && !IsSpace(s[|s| - 1]))) ==> r == s)
      && Strip(r) == r
  {
    var t := StripLeft(s);
    var r := StripRight(t);
    StripLeftDropsSpace(s);
    StripRightDropsSpace(t);
    assert r != [] ==> r[0] == t[0];
    if r != [] {
      StripLeftDropsSpace(r);
      StripRightDropsSpace(r);
    }
  }

  /** `bytes.split(b',')`: the pieces between commas; never empty. */
  function Split(s: seq<byte>): (r: seq<seq<byte>>)
    ensures |r| >= 1
  {
    if s == [] then [[]]
    else if s[0] == Comma then [[]] + Split(s[1..])
    else
      var t := Split(s[1..]);
      [[s[0]] + t[0]] + t[1..]
  }

  /** One line of the change file read as the drain reads it: `None` for
      a line of any other kind, an error where the code raises (too few
      fields, a name that is not UTF-8, a payload that does not
      unpickle), and `Malformed` for a list of more than three fields. */
  function DecodeLine(line: seq<byte>, loads: seq<byte> -> Result<Value>): Result<Option<Op>> {
    var f := Split(Strip(line));
    if f[0] != AddKind && f[0] != DeleteKind then
      Ok(None)
    else if |f| < 2 then
      Err(IndexError)
    else
      match Utf8.Decode(f[1])
      case Err(e) => Err(e)
      case Ok(name) =>
        if |f| < 3 then
          Err(IndexError)
        else if f[0] == AddKind then
          match loads(f[2])
          case Err(e) => Err(e)
          case Ok(task) => Ok(Some(if |f| == 3 then Add(Str(name), task) else Malformed(|f|)))
        else
          Ok(Some(if |f| == 3 then Delete(Str(name)) else Malformed(|f|)))
  }

  /** What a line reads as: nothing exactly when its first field is
      neither `add` nor `delete`; an add or a delete only from exactly
      three fields, named by the decoded second field; `Malformed` only
      from more than three; a line of either kind with fewer than three
      fields raises. */
  lemma DecodeLineCases(line: seq<byte>, loads: seq<byte> -> Result<Value>)
    ensures var f := Split(Strip(line)); var r := DecodeLine(line, loads);
      && (r == Ok(None) <==> f[0] != AddKind && f[0] != DeleteKind)
      && ((f[0] == AddKind || f[0] == DeleteKind) && |f| < 3 ==> r.Err?)
      && (r.Ok? && r.value.Some? && r.value.value.Add? ==>
            f[0] == AddKind && |f| == 3 && r.value.value.name.Str? && Utf8.Decode(f[1]) == Ok(r.value.value.name.s))
      && (r.Ok? && r.value.Some? && r.value.value.Delete? ==>
            f[0] == DeleteKind && |f| == 3 && r.value.value.name.Str? && Utf8.Decode(f[1]) == Ok(r.value.value.name.s))
      && (r.Ok? && r.value.Some? && r.value.value.Malformed? ==> r.value.value.arity == |f| > 3)
  {
  }

  /** The operations read from a sequence of lines, in file order; the
      first line that raises makes the whole read fail. */
  function DecodeAll(lines: seq<seq<byte>>, loads: seq<byte> -> Result<Value>): Result<seq<Op>> {
    if lines == [] then Ok([])
    else
      match DecodeLine(lines[0], loads)
      case Err(e) => Err(e)
      case Ok(first) =>
        match DecodeAll(lines[1..], loads)
        case Err(e) => Err(e)
        case Ok(rest) => Ok((if first.Some? then [first.value] else []) + rest)
  }

  /** The whole change file read by `get_and_clear_operations`. */
  function DecodeFile(buf: seq<byte>, loads: seq<byte> -> Result<Value>): Result<seq<Op>> {
    DecodeAll(Lines(buf), loads)
  }

  // ---------------------------------------------------------------------
  // Writing: the records `add_task` and `delete_task` append

  /** The operations the file backend can write: an add or a delete of a
      string name. */
  predicate Writable(op: Op) {
    (op.Add? || op.Delete?) && op.name.Str?
  }

  /** The record an operation is written as; an operation the backend
      never writes has no record. */
  function EncodeOp(op: Op, dumps: Value -> seq<byte>): seq<byte> {
    if !Writable(op) then []
    else if op.Add? then Record(AddKind, Utf8.Encode(op.name.s), dumps(op.task))
    else Record(DeleteKind, Utf8.Encode(op.name.s), NullPayload)
  }

  /** Only an add or delete of a string name is written, and each record
      is one line ending in a newline. */
  lemma EncodeOpCases(op: Op, dumps: Value -> seq<byte>)
    ensures EncodeOp(op, dumps) == [] <==> !Writable(op)
    ensures var r := EncodeOp(op, dumps); r != [] ==> r[|r| - 1] == Newline
  {
  }

  /** The bytes of `f` on each operation of `log`, in order. */
  function ConcatMap(log: seq<Op>, f: Op -> seq<byte>): seq<byte> {
    if log == [] then [] else f(log[0]) + ConcatMap(log[1..], f)
  }

  /** The change file holding the records of `log`, in order. */
  function EncodeAll(log: seq<Op>, dumps: Value -> seq<byte>): seq<byte> {
    ConcatMap(log, op => EncodeOp(op, dumps))
  }

  /** A field that the line format carries intact: no comma, no newline. */
  predicate PlainField(b: seq<byte>) {
    Comma !in b && Newline !in b
  }

  /** What an operation needs for its record to read back as itself:
      a name and a pickle free of commas and newlines, and a pickle that
      does not end in whitespace (which `strip()` would cut). */
  predicate RecordSafe(op: Op, dumps: Value -> seq<byte>) {
    && Writable(op)
    && PlainField(Utf8.Encode(op.name.s))
    && (op.Add? ==> PlainField(dumps(op.task)) && (dumps(op.task) != [] ==> !IsSpace(dumps(op.task)[|dumps(op.task)| - 1])))
  }

  /** `pickle.loads` undoes `pickle.dumps`. */
  ghost predicate PickleLaw(dumps: Value -> seq<byte>, loads: seq<byte> -> Result<Value>) {
    forall v :: loads(dumps(v)) == Ok(v)
  }

  // ---------------------------------------------------------------------
  // The round trip

  lemma {:induction false} LineLengthOfRecord(r: seq<byte>, rest: seq<byte>)
    requires r != [] && r[|r| - 1] == Newline && Newline !in r[..|r| - 1]
    ensures LineLength(r + rest) == |r|
    decreases |r|
  {
    if |r| > 1 {
      assert (r + rest)[0] == r[0] != Newline by { assert r[0] == r[..|r| - 1][0]; }
      assert (r + rest)[1..] == r[1..] + rest;
      assert r[1..][..|r[1..]| - 1] == r[..|r| - 1][1..];
      LineLengthOfRecord(r[1..], rest);
    }
  }

  /** A whole record appended before `rest` is the next line. */
  lemma LinesOfRecord(r: seq<byte>, rest: seq<byte>)
    requires r != [] && r[|r| - 1] == Newline && Newline !in r[..|r| - 1]
    ensures Lines(r + rest) == [r] + Lines(rest)
  {
    LineLengthOfRecord(r, rest);
    assert (r + rest)[..|r|] == r;
    assert (r + rest)[|r|..] == rest;
  }

  lemma {:induction false} SplitAtComma(a: seq<byte>, rest: seq<byte>)
    requires Comma !in a
    ensures Split(a + [Comma] + rest) == [a] + Split(rest)
    decreases |a|
  {
    if a == [] {
      assert ([] + [Comma] + rest)[1..] == rest;
    } else {
      assert (a + [Comma] + rest)[1..] == a[1..] + [Comma] + rest;
      SplitAtComma(a[1..], rest);
      assert [a[0]] + a[1..] == a;
    }
  }

  lemma {:induction false} SplitPlain(a: seq<byte>)
    requires Comma !in a
    ensures Split(a) == [a]
    decreases |a|
  {
    if a != [] {
      SplitPlain(a[1..]);
      assert [a[0]] + a[1..] == a;
    }
  }

  lemma {:induction false} StripRightOnce(s: seq<byte>)
    requires s != [] && IsSpace(s[|s| - 1])
    requires s[..|s| - 1] != [] && !IsSpace(s[|s| - 2])
    ensures StripRight(s) == s[..|s| - 1]
  {
  }

  /** Stripping a record leaves `kind,name,payload`. */
  lemma StripRecord(kind: seq<byte>, name: seq<byte>, payload: seq<byte>)
    requires kind != [] && !IsSpace(kind[0])
    requires payload != [] ==> !IsSpace(payload[|payload| - 1])
    ensures Strip(Record(kind, name, payload)) == kind + [Comma] + name + [Comma] + payload
  {
    var body := kind + [Comma] + name + [Comma] + payload;
    var r := Record(kind, name, payload);
    assert r == body + [Newline];
    assert StripLeft(r) == r;
    assert r[..|r| - 1] == body;
    if payload == [] {
      assert body[|body| - 1] == Comma;
    } else {
      assert body[|body| - 1] == payload[|payload| - 1];
    }
    StripRightOnce(r);
  }

  /** The fields of a record whose name and payload are plain. */
  lemma FieldsOfRecord(kind: seq<byte>, name: seq<byte>, payload: seq<byte>)
    requires kind != [] && !IsSpace(kind[0]) && Comma !in kind
    requires Comma !in name && Comma !in payload
    requires payload != [] ==> !IsSpace(payload[|payload| - 1])
    ensures Split(Strip(Record(kind, name, payload))) == [kind, name, payload]
  {
    StripRecord(kind, name, payload);
    assert kind + [Comma] + name + [Comma] + payload == kind + [Comma] + (name + [Comma] + payload);
    SplitAtComma(kind, name + [Comma] + payload);
    SplitAtComma(name, payload);
    SplitPlain(payload);
  }

  /** A record of a safe operation reads back as that operation. */
  lemma DecodeRecord(op: Op, dumps: Value -> seq<byte>, loads: seq<byte> -> Result<Value>)
    requires RecordSafe(op, dumps) && PickleLaw(dumps, loads)
    ensures DecodeLine(EncodeOp(op, dumps), loads) == Ok(Some(op))
  {
    var name := Utf8.Encode(op.name.s);
    Utf8.DecodeEncode(op.name.s);
    if op.Add? {
      var payload := dumps(op.task);
      FieldsOfRecord(AddKind, name, payload);
      assert loads(payload) == Ok(op.task);
    } else {
      FieldsOfRecord(DeleteKind, name, NullPayload);
    }
  }

  lemma RecordShape(op: Op, dumps: Value -> seq<byte>)
    requires RecordSafe(op, dumps)
    ensures var r := EncodeOp(op, dumps); r != [] && r[|r| - 1] == Newline && Newline !in r[..|r| - 1]
  {
    var kind := if op.Add? then AddKind else DeleteKind;
    var name := Utf8.Encode(op.name.s);
    var payload := if op.Add? then dumps(op.task) else NullPayload;
    var r := EncodeOp(op, dumps);
    assert r == Record(kind, name, payload);
    assert r[..|r| - 1] == kind + [Comma] + name + [Comma] + payload;
  }

  /** Round trip of the change file: when every recorded operation is
      safe for the line format, reading the file gives back exactly the
      operations written, in the order they were written. */
  lemma {:induction false} DecodeEncodeAll(log: seq<Op>, dumps: Value -> seq<byte>, loads: seq<byte> -> Result<Value>)
    requires forall i :: 0 <= i < |log| ==> RecordSafe(log[i], dumps)
    requires PickleLaw(dumps, loads)
    ensures DecodeFile(EncodeAll(log, dumps), loads) == Ok(log)
    decreases |log|
  {
    if log != [] {
      assert RecordSafe(log[0], dumps);
      assert forall i :: 0 <= i < |log[1..]| ==> log[1..][i] == log[i + 1];
      DecodeEncodeAll(log[1..], dumps, loads);
      DecodeEncodeStep(log, dumps, loads);
    }
  }

  /** One more safe record in front of a file that reads back as
      written. */
  lemma DecodeEncodeStep(log: seq<Op>, dumps: Value -> seq<byte>, loads: seq<byte> -> Result<Value>)
    requires log != [] && RecordSafe(log[0], dumps) && PickleLaw(dumps, loads)
    requires DecodeFile(EncodeAll(log[1..], dumps), loads) == Ok(log[1..])
    ensures DecodeFile(EncodeAll(log, dumps), loads) == Ok(log)
  {
    var r, tail := EncodeOp(log[0], dumps), EncodeAll(log[1..], dumps);
    assert EncodeAll(log, dumps) == r + tail;
    RecordShape(log[0], dumps);
    DecodeRecord(log[0], dumps, loads);
    DecodeFileOfRecord(r, tail, loads, log[0], log[1..]);
    assert [log[0]] + log[1..] == log;
  }

  /** Appending a record appends its operation to what the file reads as. */
  lemma EncodeAllAppend(log: seq<Op>, op: Op, dumps: Value -> seq<byte>)
    ensures EncodeAll(log + [op], dumps) == EncodeAll(log, dumps) + EncodeOp(op, dumps)
  {
    ConcatMapAppend(log, op, op => EncodeOp(op, dumps));
  }

  lemma {:induction false} ConcatMapAppend(log: seq<Op>, op: Op, f: Op -> seq<byte>)
    ensures ConcatMap(log + [op], f) == ConcatMap(log, f) + f(op)
    decreases |log|
  {
    if log == [] {
      assert log + [op] == [op];
    } else {
      assert (log + [op])[1..] == log[1..] + [op];
      ConcatMapAppend(log[1..], op, f);
    }
  }

  /** A comma inside a name is not escaped: `delete_task("a,b")` writes
      `delete,a,b,null`, which reads back as a four-field item that the
      scheduler cannot unpack, not as the delete that was written. The
      records after it read back as themselves. */
  lemma CommaInNameSplitsRecord(rest: seq<Op>, dumps: Value -> seq<byte>, loads: seq<byte> -> Result<Value>)
    requires forall i :: 0 <= i < |rest| ==> RecordSafe(rest[i], dumps)
    requires PickleLaw(dumps, loads)
    ensures var log := [Delete(Str("a,b"))] + rest;
      && EncodeAll(log, dumps) == Record(DeleteKind, [97, 44, 98], NullPayload) + EncodeAll(rest, dumps)
      && DecodeFile(EncodeAll(log, dumps), loads) == Ok([Malformed(4)] + rest)
  {
    EncodeCommaLog(rest, dumps);
    RecordShapeCommaName();
    DecodeCommaLine(loads);
    DecodeEncodeAll(rest, dumps, loads);
    DecodeFileOfRecord(Record(DeleteKind, [97, 44, 98], NullPayload), EncodeAll(rest, dumps), loads, Malformed(4), rest);
  }

  /** A record followed by more of the file reads as the record's item
      followed by what the rest reads as. */
  lemma DecodeFileOfRecord(r: seq<byte>, tail: seq<byte>, loads: seq<byte> -> Result<Value>, op: Op, ops: seq<Op>)
    requires r != [] && r[|r| - 1] == Newline && Newline !in r[..|r| - 1]
    requires DecodeLine(r, loads) == Ok(Some(op)) && DecodeFile(tail, loads) == Ok(ops)
    ensures DecodeFile(r + tail, loads) == Ok([op] + ops)
  {
    LinesOfRecord(r, tail);
    var lines := [r] + Lines(tail);
    assert lines[0] == r && lines[1..] == Lines(tail);
  }

  /** A whole line whose first field is neither `add` nor `delete` is
      skipped: the file reads as the lines after it. */
  lemma SkipsOtherLine(r: seq<byte>, tail: seq<byte>, loads: seq<byte> -> Result<Value>)
    requires r != [] && r[|r| - 1] == Newline && Newline !in r[..|r| - 1]
    requires Split(Strip(r))[0] != AddKind && Split(Strip(r))[0] != DeleteKind
    ensures DecodeFile(r + tail, loads) == DecodeFile(tail, loads)
  {
    LinesOfRecord(r, tail);
    var lines := [r] + Lines(tail);
    assert lines[0] == r && lines[1..] == Lines(tail);
    assert DecodeFile(tail, loads).Ok? ==> [] + DecodeFile(tail, loads).value == DecodeFile(tail, loads).value;
  }

  lemma EncodeCommaLog(rest: seq<Op>, dumps: Value -> seq<byte>)
    ensures EncodeAll([Delete(Str("a,b"))] + rest, dumps) == Record(DeleteKind, [97, 44, 98], NullPayload) + EncodeAll(rest, dumps)
  {
    var log := [Delete(Str("a,b"))] + rest;
    EncodeCommaName();
    assert log[0] == Delete(Str("a,b")) && log[1..] == rest;
    assert EncodeOp(log[0], dumps) == Record(DeleteKind, [97, 44, 98], NullPayload);
  }

  lemma DecodeCommaLine(loads: seq<byte> -> Result<Value>)
    ensures DecodeLine(Record(DeleteKind, [97, 44, 98], NullPayload), loads) == Ok(Some(Malformed(4)))
  {
    FieldsCommaName();
    DecodeSingleA();
  }

  lemma EncodeCommaName()
    ensures Utf8.Encode("a,b") == [97, 44, 98]
  {
    assert "a,b"[1..] == ",b" && ",b"[1..] == "b" && "b"[1..] == "";
  }

  lemma DecodeSingleA()
    ensures Utf8.Decode([97]) == Ok("a")
  {
    assert Utf8.Encode("a") == [97];
    Utf8.DecodeEncode("a");
  }

  lemma RecordShapeCommaName()
    ensures var r := Record(DeleteKind, [97, 44, 98], NullPayload);
      r != [] && r[|r| - 1] == Newline && Newline !in r[..|r| - 1]
  {
    var r := Record(DeleteKind, [97, 44, 98], NullPayload);
    assert r[..|r| - 1] == DeleteKind + [Comma] + [97, 44, 98] + [Comma] + NullPayload;
  }

  lemma FieldsCommaName()
    ensures Split(Strip(Record(DeleteKind, [97, 44, 98], NullPayload))) == [DeleteKind, [97], [98], NullPayload]
  {
    StripRecord(DeleteKind, [97, 44, 98], NullPayload);
    var tail := [98] + [Comma] + NullPayload;
    var body := DeleteKind + [Comma] + [97, 44, 98] + [Comma] + NullPayload;
    assert body == DeleteKind + [Comma] + ([97] + [Comma] + tail);
    SplitAtComma(DeleteKind, [97] + [Comma] + tail);
    SplitAtComma([97], tail);
    SplitAtComma([98], NullPayload);
    SplitPlain(NullPayload);
  }

  /** An empty file reads as no operations. */
  lemma DecodeEmpty(loads: seq<byte> -> Result<Value>)
    ensures DecodeFile([], loads) == Ok([])
  {
  }
}
