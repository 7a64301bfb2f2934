/** DBField and DBRecord: a length-prefixed binary format read and written through a moving cursor. Native integers
    are taken to be little-endian, bool to be one byte. */
module DBRecords {
  import opened Bytes
  import opened Wrappers

  type UShort = x: int | 0 <= x < 0x1_0000

  const INT_MAX := 0x7FFF_FFFF

  // What a DBField holds.
  datatype Field = Field(data: seq<Byte>, usType: UShort, usIndex: UShort, key: bool, isNull: bool)

  // A null field carries no data on the wire.
  function Normal(f: Field): Field {
    if f.isNull then f.(data := []) else f
  }

  // ---- The format ----

  function BoolByte(b: bool): Byte {
    if b then 1 else 0
  }

  function FieldBytes(f: Field): seq<Byte> {
    var data := Normal(f).data;
    LittleEndian(|data|, 4) + LittleEndian(f.usType, 2) + LittleEndian(f.usIndex, 2)
    + [BoolByte(f.key)] + [BoolByte(f.isNull)] + data
  }

  function FieldsBytes(fs: seq<Field>): seq<Byte> {
    if fs == [] then [] else FieldBytes(fs[0]) + FieldsBytes(fs[1..])
  }

  function RecordBytes(fs: seq<Field>): seq<Byte> {
    LittleEndian(|fs|, 4) + FieldsBytes(fs)
  }

  function RecordsBytes(rs: seq<seq<Field>>): seq<Byte> {
    if rs == [] then [] else RecordBytes(rs[0]) + RecordsBytes(rs[1..])
  }

  // Sizes that fit the int the code stores them in.
  predicate Fits(fs: seq<Field>) {
    |fs| <= INT_MAX && forall f :: f in fs ==> |f.data| <= INT_MAX
  }

  // Reading n bytes at pos.
  function Number(b: seq<Byte>, pos: nat, n: nat): nat
    requires pos + n <= |b|
  {
    ReadLittleEndian(b[pos..pos + n])
  }

  // A field at pos and where it ends; None where the code would read outside the buffer or take a negative length.
  function ParseField(b: seq<Byte>, pos: nat): Option<(Field, nat)> {
    if pos + 10 > |b| then None else
    var len, isNull := Number(b, pos, 4), b[pos + 9] != 0;
    NumberBound(b, pos + 4, 2);
    NumberBound(b, pos + 6, 2);
    var f := Field([], Number(b, pos + 4, 2), Number(b, pos + 6, 2), b[pos + 8] != 0, isNull);
    if isNull then Some((f, pos + 10))
    else if len > INT_MAX || pos + 10 + len > |b| then None
    else Some((f.(data := b[pos + 10..pos + 10 + len]), pos + 10 + len))
  }

  function ParseFields(b: seq<Byte>, pos: nat, n: nat): Option<(seq<Field>, nat)>
    decreases n
  {
    if n == 0 then Some(([], pos)) else
    var first := ParseField(b, pos);
    if first.None? then None else
    var rest := ParseFields(b, first.value.1, n - 1);
    if rest.None? then None else Some(([first.value.0] + rest.value.0, rest.value.1))
  }

  // The number of fields is an int: the loop does nothing when it is negative.
  function FieldCount(b: seq<Byte>, pos: nat): nat
    requires pos + 4 <= |b|
  {
    var n := Number(b, pos, 4);
    if n > INT_MAX then 0 else n
  }

  function ParseRecord(b: seq<Byte>, pos: nat): Option<(seq<Field>, nat)> {
    if pos + 4 > |b| then None else ParseFields(b, pos + 4, FieldCount(b, pos))
  }

  function ParseRecords(b: seq<Byte>, pos: nat, n: nat): Option<(seq<seq<Field>>, nat)>
    decreases n
  {
    if n == 0 then Some(([], pos)) else
    var first := ParseRecord(b, pos);
    if first.None? then None else
    var rest := ParseRecords(b, first.value.1, n - 1);
    if rest.None? then None else Some(([first.value.0] + rest.value.0, rest.value.1))
  }

  lemma NumberBound(b: seq<Byte>, pos: nat, n: nat)
    requires pos + n <= |b|
    ensures n == 2 ==> Number(b, pos, n) < 0x1_0000
  {
    if n == 2 {
      var s := b[pos..pos + 2];
      assert s[1..][1..] == [];
      assert ReadLittleEndian(s[1..]) == s[1] + 256 * ReadLittleEndian([]);
    }
  }

  // ---- Round trips ----

  function Normals(fs: seq<Field>): (r: seq<Field>)
    ensures |r| == |fs|
  {
    seq(|fs|, i requires 0 <= i < |fs| => Normal(fs[i]))
  }

  // s lies in b at pos.
  predicate Holds(b: seq<Byte>, pos: nat, s: seq<Byte>) {
    pos + |s| <= |b| && b[pos..pos + |s|] == s
  }

  lemma HoldsSplit(b: seq<Byte>, pos: nat, s: seq<Byte>, t: seq<Byte>)
    ensures Holds(b, pos, s + t) <==> Holds(b, pos, s) && Holds(b, pos + |s|, t)
  {
    if Holds(b, pos, s) && Holds(b, pos + |s|, t) {
      assert b[pos..pos + |s + t|] == b[pos..pos + |s|] + b[pos + |s|..pos + |s| + |t|];
    }
    if Holds(b, pos, s + t) {
      assert b[pos..pos + |s|] == (s + t)[..|s|];
      assert b[pos + |s|..pos + |s| + |t|] == (s + t)[|s|..];
    }
  }

  // Where the five numbers and the data of a field lie.
  lemma FieldLayout(b: seq<Byte>, pos: nat, f: Field)
    ensures var data := Normal(f).data;
      Holds(b, pos, FieldBytes(f)) <==>
        && Holds(b, pos, LittleEndian(|data|, 4)) && Holds(b, pos + 4, LittleEndian(f.usType, 2))
        && Holds(b, pos + 6, LittleEndian(f.usIndex, 2))
        && Holds(b, pos + 8, [BoolByte(f.key)]) && Holds(b, pos + 9, [BoolByte(f.isNull)])
        && Holds(b, pos + 10, data)
    ensures |FieldBytes(f)| == 10 + |Normal(f).data|
  {
    hide Holds, LittleEndian, Normal;
    var data := Normal(f).data;
    var n, t, i := LittleEndian(|data|, 4), LittleEndian(f.usType, 2), LittleEndian(f.usIndex, 2);
    var key, isNull := [BoolByte(f.key)], [BoolByte(f.isNull)];
    HoldsSplit(b, pos, n + t + i + key + isNull, data);
    HoldsSplit(b, pos, n + t + i + key, isNull);
    HoldsSplit(b, pos, n + t + i, key);
    HoldsSplit(b, pos, n + t, i);
    HoldsSplit(b, pos, n, t);
  }

  lemma NumberAt(b: seq<Byte>, pos: nat, n: nat, k: nat)
    requires Holds(b, pos, LittleEndian(n, k)) && n < Pow256(k)
    ensures pos + k <= |b| && Number(b, pos, k) == n
  {
    LittleEndianValue(n, k);
  }

  lemma FieldRoundTrip(b: seq<Byte>, pos: nat, f: Field)
    requires Holds(b, pos, FieldBytes(f)) && |f.data| <= INT_MAX
    ensures ParseField(b, pos) == Some((Normal(f), pos + |FieldBytes(f)|))
  {
    hide LittleEndian, FieldBytes, Number;
    FieldLayout(b, pos, f);
    Pow256Values();
    NumberAt(b, pos, |Normal(f).data|, 4);
    NumberAt(b, pos + 4, f.usType, 2);
    NumberAt(b, pos + 6, f.usIndex, 2);
    assert b[pos + 8] == b[pos + 8..pos + 9][0] && b[pos + 9] == b[pos + 9..pos + 10][0];
  }

  lemma {:induction false} FieldsRoundTrip(b: seq<Byte>, pos: nat, fs: seq<Field>)
    requires Holds(b, pos, FieldsBytes(fs)) && forall f :: f in fs ==> |f.data| <= INT_MAX
    ensures ParseFields(b, pos, |fs|) == Some((Normals(fs), pos + |FieldsBytes(fs)|))
    decreases |fs|
  {
    hide FieldBytes, ParseField;
    if fs != [] {
      HoldsSplit(b, pos, FieldBytes(fs[0]), FieldsBytes(fs[1..]));
      FieldRoundTrip(b, pos, fs[0]);
      FieldsRoundTrip(b, pos + |FieldBytes(fs[0])|, fs[1..]);
      assert Normals(fs) == [Normal(fs[0])] + Normals(fs[1..]);
    }
  }

  // Reading a record back gives its fields, nulls with empty data, and ends where the record ends.
  lemma RecordRoundTrip(b: seq<Byte>, pos: nat, fs: seq<Field>)
    requires Holds(b, pos, RecordBytes(fs)) && Fits(fs)
    ensures ParseRecord(b, pos) == Some((Normals(fs), pos + |RecordBytes(fs)|))
  {
    hide LittleEndian, FieldsBytes, Number;
    HoldsSplit(b, pos, LittleEndian(|fs|, 4), FieldsBytes(fs));
    Pow256Values();
    NumberAt(b, pos, |fs|, 4);
    FieldsRoundTrip(b, pos + 4, fs);
  }

  ghost function AllNormals(rs: seq<seq<Field>>): seq<seq<Field>> {
    if rs == [] then [] else [Normals(rs[0])] + AllNormals(rs[1..])
  }

  // Records written back to back read back in order.
  lemma {:induction false} RecordsRoundTrip(b: seq<Byte>, pos: nat, rs: seq<seq<Field>>)
    requires Holds(b, pos, RecordsBytes(rs)) && forall r :: r in rs ==> Fits(r)
    ensures ParseRecords(b, pos, |rs|) == Some((AllNormals(rs), pos + |RecordsBytes(rs)|))
    decreases |rs|
  {
    hide RecordBytes, ParseRecord;
    if rs != [] {
      HoldsSplit(b, pos, RecordBytes(rs[0]), RecordsBytes(rs[1..]));
      RecordRoundTrip(b, pos, rs[0]);
      RecordsRoundTrip(b, pos + |RecordBytes(rs[0])|, rs[1..]);
    }
  }

  // Exactly the records whose null fields carry no data come back as they were.
  lemma RestoredExactly(fs: seq<Field>)
    ensures Normals(fs) == fs <==> forall f :: f in fs && f.isNull ==> f.data == []
  {
    if forall f :: f in fs && f.isNull ==> f.data == [] {
      assert forall i :: 0 <= i < |fs| ==> fs[i] in fs && Normals(fs)[i] == fs[i];
    } else {
      var i :| 0 <= i < |fs| && fs[i].isNull && fs[i].data != [];
      assert Normals(fs)[i] != fs[i];
    }
  }

  // ---- The format byte by byte ----

  // A field is ten bytes and its data: the length of the data, the type and the index low byte first, the two flags.
  lemma FieldByBytes(f: Field)
    ensures var b, n := FieldBytes(f), if f.isNull then 0 else |f.data|;
      && |b| == 10 + n && b[10..] == (if f.isNull then [] else f.data)
      && b[0] == n % 256 && b[1] == n / 0x100 % 256 && b[2] == n / 0x1_0000 % 256 && b[3] == n / 0x100_0000 % 256
      && b[4] == f.usType % 256 && b[5] == f.usType / 256 && b[6] == f.usIndex % 256 && b[7] == f.usIndex / 256
      && b[8] == (if f.key then 1 else 0) && b[9] == (if f.isNull then 1 else 0)
  {
    hide LittleEndian;
    LittleEndianFour(|Normal(f).data|);
    LittleEndianTwo(f.usType);
    LittleEndianTwo(f.usIndex);
  }

  // A record is the number of its fields, low byte first, and the fields in order.
  lemma RecordByBytes(fs: seq<Field>)
    ensures var b, n := RecordBytes(fs), |fs|;
      && |b| >= 4 && b[4..] == FieldsBytes(fs)
      && b[0] == n % 256 && b[1] == n / 0x100 % 256 && b[2] == n / 0x1_0000 % 256 && b[3] == n / 0x100_0000 % 256
  {
    hide LittleEndian, FieldsBytes;
    LittleEndianFour(|fs|);
  }

  lemma {:induction false} FieldsConcat(a: seq<Field>, b: seq<Field>)
    ensures FieldsBytes(a + b) == FieldsBytes(a) + FieldsBytes(b)
    ensures |a| == 1 ==> FieldsBytes(a) == FieldBytes(a[0])
  {
    hide FieldBytes;
    if a == [] {
      assert a + b == b;
    } else {
      assert (a + b)[0] == a[0] && (a + b)[1..] == a[1..] + b;
      FieldsConcat(a[1..], b);
    }
  }

  // What is read from any ten bytes. The flags are true for every byte but zero; the length of a null field is not
  // looked at; a length with its highest bit set is negative.
  lemma ParsedByBytes(b: seq<Byte>, pos: nat)
    ensures pos + 10 > |b| ==> ParseField(b, pos).None?
    ensures pos + 10 <= |b| ==> var s := b[pos..];
      var n := s[0] as int + 0x100 * s[1] as int + 0x1_0000 * s[2] as int + 0x100_0000 * s[3] as int;
      && (ParseField(b, pos).Some? <==> s[9] != 0 || (s[3] < 128 && 10 + n <= |s|))
      && (ParseField(b, pos).Some? ==> var (f, end) := ParseField(b, pos).value;
        && f.usType == s[4] as int + 0x100 * s[5] as int && f.usIndex == s[6] as int + 0x100 * s[7] as int
        && (f.key <==> s[8] != 0) && (f.isNull <==> s[9] != 0)
        && f.data == (if s[9] != 0 then [] else s[10..10 + n]) && end == pos + 10 + |f.data|)
  {
    hide ReadLittleEndian;
    if pos + 10 <= |b| {
      ReadFour(b[pos..pos + 4]);
      ReadTwo(b[pos + 4..pos + 6]);
      ReadTwo(b[pos + 6..pos + 8]);
    }
  }

  // The number of fields read, low byte first; a negative one is none, and the record ends behind it.
  lemma CountByBytes(b: seq<Byte>, pos: nat)
    requires pos + 4 <= |b|
    ensures var s := b[pos..];
      FieldCount(b, pos) == if s[3] >= 128 then 0
        else s[0] as int + 0x100 * s[1] as int + 0x1_0000 * s[2] as int + 0x100_0000 * s[3] as int
    ensures var r := ParseRecord(b, pos);
      b[pos + 3] >= 128 ==> r.Some? && r.value.0 == [] && r.value.1 == pos + 4
  {
    hide ReadLittleEndian;
    ReadFour(b[pos..pos + 4]);
  }

  // ---- The classes ----

  // b with s written over it at pos.
  function Written(b: seq<Byte>, pos: nat, s: seq<Byte>): (r: seq<Byte>)
    requires pos + |s| <= |b|
    ensures |r| == |b|
  {
    b[..pos] + s + b[pos + |s|..]
  }

  lemma WrittenTwice(b: seq<Byte>, pos: nat, s: seq<Byte>, t: seq<Byte>)
    requires pos + |s| + |t| <= |b|
    ensures Written(Written(b, pos, s), pos + |s|, t) == Written(b, pos, s + t)
  {}

  lemma WrittenHolds(b: seq<Byte>, pos: nat, s: seq<Byte>)
    requires pos + |s| <= |b|
    ensures Holds(Written(b, pos, s), pos, s)
  {}

  lemma ParsedNormal(b: seq<Byte>, pos: nat)
    ensures ParseField(b, pos).Some? ==> ParseField(b, pos).value.0 == Normal(ParseField(b, pos).value.0)
  {}

  class DBField {
    var m_sData: seq<Byte>
    var m_usType: UShort
    var m_usIndex: UShort
    var m_bKey: bool
    var m_bNull: bool

    function View(): Field
      reads this
    {
      Field(m_sData, m_usType, m_usIndex, m_bKey, m_bNull)
    }

    constructor (iType: UShort := 0)
      ensures View() == Field([], iType, 0, false, true)
    {
      m_usType, m_sData, m_usIndex, m_bKey, m_bNull := iType, [], 0, false, true;
    }

    method Serialize(buf: array<Byte>, pos: nat) returns (size: nat)
      requires |m_sData| <= INT_MAX && pos + |FieldBytes(View())| <= buf.Length
      modifies buf
      ensures size == pos + |FieldBytes(View())| && buf[..] == Written(old(buf[..]), pos, FieldBytes(View()))
    {
      hide LittleEndian, Written, Holds;
      FieldLayout(buf[..], pos, View());
      ghost var was, n, t, i := buf[..], LittleEndian(|Normal(View()).data|, 4), LittleEndian(m_usType, 2),
        LittleEndian(m_usIndex, 2);
      ghost var key, isNull := [BoolByte(m_bKey)], [BoolByte(m_bNull)];
      var dataLen := |m_sData|;
      if m_bNull {
        dataLen := 0;
      }
      size := Put(buf, pos, LittleEndian(dataLen, 4));
      WrittenTwice(was, pos, n, t);
      size := Put(buf, size, LittleEndian(m_usType, 2));
      WrittenTwice(was, pos, n + t, i);
      size := Put(buf, size, LittleEndian(m_usIndex, 2));
      WrittenTwice(was, pos, n + t + i, key);
      size := Put(buf, size, [BoolByte(m_bKey)]);
      WrittenTwice(was, pos, n + t + i + key, isNull);
      size := Put(buf, size, [BoolByte(m_bNull)]);
      if !m_bNull {
        WrittenTwice(was, pos, n + t + i + key + isNull, m_sData);
        size := Put(buf, size, m_sData);
      } else {
        assert n + t + i + key + isNull + [] == n + t + i + key + isNull;
      }
    }

    method SerializeSize() returns (dataSize: nat)
      ensures dataSize == |FieldBytes(View())|
    {
      FieldLayout([], 0, View());
      dataSize := |m_sData|;
      if m_bNull {
        dataSize := 0;
      }
      dataSize := dataSize + 4 + 2 + 2 + 1 + 1;
    }

    // Reads the field at pos. A null field keeps the data the object had before.
    method UnSerialize(buf: seq<Byte>, pos: nat) returns (size: nat)
      requires ParseField(buf, pos).Some?
      modifies this
      ensures var (f, end) := ParseField(buf, pos).value;
        size == end && View() == if f.isNull then f.(data := old(m_sData)) else f
    {
      var dataLen := Number(buf, pos, 4);
      NumberBound(buf, pos + 4, 2);
      m_usType := Number(buf, pos + 4, 2);
      NumberBound(buf, pos + 6, 2);
      m_usIndex := Number(buf, pos + 6, 2);
      m_bKey := buf[pos + 8] != 0;
      m_bNull := buf[pos + 9] != 0;
      size := pos + 10;
      if !m_bNull {
        m_sData := buf[size..size + dataLen];
        size := size + dataLen;
      }
    }

    method Clone() returns (f: DBField)
      ensures fresh(f) && f.View() == Normal(View())
    {
      f := new DBField();
      f.m_bKey, f.m_bNull, f.m_usIndex, f.m_usType := m_bKey, m_bNull, m_usIndex, m_usType;
      if !m_bNull {
        f.m_sData := m_sData;
      }
    }

    // Takes over another field; a field told to take over itself loses its data.
    method ResetData(pField: DBField)
      modifies this
      ensures View() == old(if pField == this then View().(data := []) else Normal(pField.View()))
    {
      m_bKey := pField.m_bKey;
      m_bNull := pField.m_bNull;
      m_usIndex := pField.m_usIndex;
      m_usType := pField.m_usType;
      m_sData := [];
      if !m_bNull {
        m_sData := pField.m_sData;
      }
    }

    // ResetData and SetData from a string: null exactly for the empty string.
    method SetData(sData: seq<Byte>)
      modifies this
      ensures View() == old(View()).(data := sData, isNull := sData == [])
      ensures View() == Normal(View())
    {
      m_sData := sData;
      m_bNull := false;
      if m_sData == [] {
        m_bNull := true;
      }
    }
  }

  // memcpy and the advance of the cursor
  method Put(buf: array<Byte>, pos: nat, data: seq<Byte>) returns (size: nat)
    requires pos + |data| <= buf.Length
    modifies buf
    ensures size == pos + |data| && buf[..] == Written(old(buf[..]), pos, data)
  {
    CopyIn(buf, pos, data);
    size := pos + |data|;
    assert buf[..] == buf[..pos] + buf[pos..size] + buf[size..];
  }

  // The fields of a list of objects.
  function Views(list: seq<DBField>): (r: seq<Field>)
    reads list
    ensures |r| == |list|
  {
    seq(|list|, i requires 0 <= i < |list| reads list => list[i].View())
  }

  lemma Shift<T>(a: seq<T>, x: T, b: seq<T>)
    ensures a + ([x] + b) == a + [x] + b
  {}

  lemma ViewsAppend(list: seq<DBField>, f: DBField)
    ensures Views(list + [f]) == Views(list) + [f.View()]
  {}

  class DBRecord {
    var m_FieldList: seq<DBField>

    constructor ()
      ensures m_FieldList == []
    {
      m_FieldList := [];
    }

    // PushBack: at the end for -1, else at the index.
    method PushBack(pField: DBField, index: int := -1)
      requires -1 <= index <= |m_FieldList|
      modifies this
      ensures var at := if index == -1 then |old(m_FieldList)| else index;
        m_FieldList == old(m_FieldList)[..at] + [pField] + old(m_FieldList)[at..]
    {
      if index == -1 {
        m_FieldList := m_FieldList + [pField];
      } else {
        m_FieldList := m_FieldList[..index] + [pField] + m_FieldList[index..];
      }
    }

    method SerializeSize() returns (dataSize: nat)
      ensures dataSize == |RecordBytes(Views(m_FieldList))|
    {
      hide FieldBytes;
      dataSize := 4;
      for i := 0 to |m_FieldList|
        invariant dataSize + |FieldsBytes(Views(m_FieldList)[i..])| == 4 + |FieldsBytes(Views(m_FieldList))|
      {
        var n := m_FieldList[i].SerializeSize();
        assert Views(m_FieldList)[i..][1..] == Views(m_FieldList)[i + 1..];
        dataSize := dataSize + n;
      }
    }

    method Serialize(buf: array<Byte>, pos: nat) returns (size: nat)
      requires Fits(Views(m_FieldList)) && pos + |RecordBytes(Views(m_FieldList))| <= buf.Length
      modifies buf
      ensures size == pos + |RecordBytes(Views(m_FieldList))|
      ensures buf[..] == Written(old(buf[..]), pos, RecordBytes(Views(m_FieldList)))
    {
      hide FieldBytes, LittleEndian, Written;
      ghost var fs, was := Views(m_FieldList), buf[..];
      ghost var done := LittleEndian(|m_FieldList|, 4);
      size := Put(buf, pos, LittleEndian(|m_FieldList|, 4));
      for i := 0 to |m_FieldList|
        invariant size == pos + |done| && done + FieldsBytes(fs[i..]) == RecordBytes(fs)
        invariant buf[..] == Written(was, pos, done)
      {
        assert fs[i..][1..] == fs[i + 1..] && fs[i] in fs;
        WrittenTwice(was, pos, done, FieldBytes(fs[i]));
        size := m_FieldList[i].Serialize(buf, size);
        done := done + FieldBytes(fs[i]);
      }
      assert done + [] == done;
    }

    // Appends the fields read at pos to the list; in a fresh record they are the whole list.
    method UnSerialize(buf: seq<Byte>, pos: nat) returns (size: nat)
      requires ParseRecord(buf, pos).Some?
      modifies this
      ensures var (fs, end) := ParseRecord(buf, pos).value;
        && size == end && |m_FieldList| == |old(m_FieldList)| + |fs|
        && m_FieldList[..|old(m_FieldList)|] == old(m_FieldList)
        && (forall f :: f in m_FieldList[|old(m_FieldList)|..] ==> fresh(f))
        && Views(m_FieldList[|old(m_FieldList)|..]) == fs
    {
      hide ParseField, Number;
      var numField := FieldCount(buf, pos);
      size := pos + 4;
      ghost var had, fs := |m_FieldList|, ParseRecord(buf, pos).value.0;
      for i := 0 to numField
        invariant |m_FieldList| == had + i && m_FieldList[..had] == old(m_FieldList)
        invariant forall f :: f in m_FieldList[had..] ==> fresh(f)
        invariant ParseFields(buf, size, numField - i).Some?
        invariant ParseFields(buf, size, numField - i).value.1 == ParseRecord(buf, pos).value.1
        invariant Views(m_FieldList[had..]) + ParseFields(buf, size, numField - i).value.0 == fs
      {
        ghost var before, views := m_FieldList[had..], Views(m_FieldList[had..]);
        size := UnSerializeField(buf, size, numField - i);
        ghost var f := m_FieldList[had + i];
        assert m_FieldList[had..] == before + [f];
        assert Views(before) == views;
        ViewsAppend(before, f);
        Shift(views, f.View(), ParseFields(buf, size, numField - i - 1).value.0);
      }
    }

    // One turn of that loop, with n fields to come.
    method UnSerializeField(buf: seq<Byte>, pos: nat, ghost n: nat) returns (size: nat)
      requires n > 0 && ParseFields(buf, pos, n).Some?
      modifies this
      ensures |m_FieldList| == |old(m_FieldList)| + 1 && m_FieldList[..|old(m_FieldList)|] == old(m_FieldList)
      ensures fresh(m_FieldList[|old(m_FieldList)|])
      ensures var all, rest := ParseFields(buf, pos, n).value, ParseFields(buf, size, n - 1);
        && rest.Some? && rest.value.1 == all.1
        && [m_FieldList[|old(m_FieldList)|].View()] + rest.value.0 == all.0
    {
      hide ParseField, Number;
      var pField := new DBField();
      ParsedNormal(buf, pos);
      size := pField.UnSerialize(buf, pos);
      PushBack(pField);
    }

    // ResetData(DBRecord*): the argument is never read, every field takes over itself and is emptied.
    method ResetData(pRecord: DBRecord)
      modifies m_FieldList
      ensures forall i :: 0 <= i < |m_FieldList| ==> m_FieldList[i].View() == old(m_FieldList[i].View()).(data := [])
    {
      ghost var fs := Views(m_FieldList);
      for i := 0 to |m_FieldList|
        invariant forall k :: 0 <= k < |m_FieldList| ==>
          m_FieldList[k].View() == fs[k] || m_FieldList[k].View() == fs[k].(data := [])
        invariant forall k :: 0 <= k < i ==> m_FieldList[k].View() == fs[k].(data := [])
      {
        m_FieldList[i].ResetData(m_FieldList[i]);
      }
    }
  }

  // Serialize into a buffer of SerializeSize bytes, then unSerialize into a fresh record: every field comes back, a
  // null field with no data, and the two cursors stop at that size.
  method Transfer(record: DBRecord) returns (copy: DBRecord, dataSize: nat, written: nat, read: nat)
    requires Fits(Views(record.m_FieldList))
    ensures fresh(copy) && Views(copy.m_FieldList) == Normals(Views(record.m_FieldList))
    ensures dataSize == written == read
  {
    hide RecordBytes, FieldsBytes, Written, Holds, ParseRecord, Normals, Fits, Views;
    ghost var fs := Views(record.m_FieldList);
    dataSize := record.SerializeSize();
    var buf := new Byte[dataSize];
    ghost var was := buf[..];
    written := record.Serialize(buf, 0);
    WrittenHolds(was, 0, RecordBytes(fs));
    RecordRoundTrip(buf[..], 0, fs);
    copy := new DBRecord();
    read := copy.UnSerialize(buf[..], 0);
    assert copy.m_FieldList[0..] == copy.m_FieldList;
  }

  lemma {:induction false} RecordsAppend(rs: seq<seq<Field>>, fs: seq<Field>)
    ensures RecordsBytes(rs + [fs]) == RecordsBytes(rs) + RecordBytes(fs)
  {
    hide RecordBytes;
    if rs == [] {
      assert rs + [fs] == [fs];
      assert RecordBytes(fs) + [] == RecordBytes(fs);
    } else {
      assert (rs + [fs])[0] == rs[0] && (rs + [fs])[1..] == rs[1..] + [fs];
      RecordsAppend(rs[1..], fs);
    }
  }

  // The total of SerializeSize, and what the records hold.
  method TotalSize(records: seq<DBRecord>) returns (size: nat, ghost rs: seq<seq<Field>>)
    ensures |rs| == |records| && size == |RecordsBytes(rs)|
    ensures forall i :: 0 <= i < |records| ==> rs[i] == Views(records[i].m_FieldList)
  {
    hide RecordBytes, Views;
    size, rs := 0, [];
    for i := 0 to |records|
      invariant |rs| == i && size == |RecordsBytes(rs)|
      invariant forall j :: 0 <= j < i ==> rs[j] == Views(records[j].m_FieldList)
    {
      var n := records[i].SerializeSize();
      RecordsAppend(rs, Views(records[i].m_FieldList));
      size, rs := size + n, rs + [Views(records[i].m_FieldList)];
    }
  }

  // Serialize of one record after another, through one cursor.
  method SerializeAll(records: seq<DBRecord>) returns (buf: array<Byte>, size: nat, ghost rs: seq<seq<Field>>)
    requires forall r :: r in records ==> Fits(Views(r.m_FieldList))
    ensures fresh(buf) && size == buf.Length && buf[..] == RecordsBytes(rs) && |rs| == |records|
    ensures forall i :: 0 <= i < |records| ==> rs[i] == Views(records[i].m_FieldList)
  {
    hide RecordBytes, RecordsBytes, Views, Written, Fits;
    var total;
    total, rs := TotalSize(records);
    buf := new Byte[total];
    size := 0;
    ghost var was := buf[..];
    NothingWritten(was);
    for i := 0 to |records|
      invariant size == |RecordsBytes(rs[..i])| && size <= buf.Length
      invariant buf[..] == Written(was, 0, RecordsBytes(rs[..i]))
    {
      assert records[i] in records;
      RecordsSplit(rs, i);
      WrittenTwice(was, 0, RecordsBytes(rs[..i]), RecordBytes(rs[i]));
      size := records[i].Serialize(buf, size);
    }
    assert rs[..|records|] == rs;
    AllWritten(was, RecordsBytes(rs));
  }

  lemma NothingWritten(b: seq<Byte>)
    ensures Written(b, 0, RecordsBytes([])) == b && RecordsBytes([]) == []
  {}

  lemma AllWritten(b: seq<Byte>, s: seq<Byte>)
    requires |s| == |b|
    ensures Written(b, 0, s) == s
  {}

  lemma RecordsSplit(rs: seq<seq<Field>>, i: nat)
    requires i < |rs|
    ensures RecordsBytes(rs[..i + 1]) == RecordsBytes(rs[..i]) + RecordBytes(rs[i])
    ensures |RecordsBytes(rs[..i])| + |RecordBytes(rs[i])| <= |RecordsBytes(rs)|
  {
    hide RecordBytes, RecordsBytes;
    assert rs[..i + 1] == rs[..i] + [rs[i]];
    RecordsAppend(rs[..i], rs[i]);
    RecordsConcat(rs[..i + 1], rs[i + 1..]);
    assert rs == rs[..i + 1] + rs[i + 1..];
  }

  lemma {:induction false} RecordsConcat(a: seq<seq<Field>>, b: seq<seq<Field>>)
    ensures |RecordsBytes(a + b)| == |RecordsBytes(a)| + |RecordsBytes(b)|
  {
    hide RecordBytes;
    if a == [] {
      assert a + b == b;
    } else {
      assert (a + b)[0] == a[0] && (a + b)[1..] == a[1..] + b;
      RecordsConcat(a[1..], b);
    }
  }

  // unSerialize of one fresh record after another, through one cursor.
  method UnSerializeAll(buf: seq<Byte>, n: nat, ghost rs: seq<seq<Field>>) returns (copies: seq<DBRecord>, size: nat)
    requires |rs| == n && Holds(buf, 0, RecordsBytes(rs)) && forall r :: r in rs ==> Fits(r)
    ensures |copies| == n && size == |RecordsBytes(rs)|
    ensures forall c :: c in copies ==> fresh(c)
    ensures forall i :: 0 <= i < n ==> Views(copies[i].m_FieldList) == Normals(rs[i])
  {
    hide RecordBytes, RecordsBytes, Views, Holds, Fits, Normals, ParseRecord;
    copies, size := [], 0;
    assert rs[0..] == rs;
    for i := 0 to n
      invariant |copies| == i && Holds(buf, size, RecordsBytes(rs[i..]))
      invariant size + |RecordsBytes(rs[i..])| == |RecordsBytes(rs)|
      invariant forall c :: c in copies ==> fresh(c)
      invariant forall j :: 0 <= j < i ==> Views(copies[j].m_FieldList) == Normals(rs[j])
    {
      FirstRecord(rs[i..]);
      assert rs[i..][0] == rs[i] && rs[i] in rs && rs[i..][1..] == rs[i + 1..];
      HoldsSplit(buf, size, RecordBytes(rs[i]), RecordsBytes(rs[i + 1..]));
      RecordRoundTrip(buf, size, rs[i]);
      var copy := new DBRecord();
      size := copy.UnSerialize(buf, size);
      assert copy.m_FieldList[0..] == copy.m_FieldList;
      copies := copies + [copy];
    }
    NoRecords(rs[n..]);
  }

  lemma FirstRecord(rs: seq<seq<Field>>)
    requires rs != []
    ensures RecordsBytes(rs) == RecordBytes(rs[0]) + RecordsBytes(rs[1..])
  {}

  lemma NoRecords(rs: seq<seq<Field>>)
    requires rs == []
    ensures RecordsBytes(rs) == []
  {}

  // Any list of records written back to back and read back into fresh records: in order, field by field, nulls
  // without data, and the two cursors stop at the sum of the sizes.
  method TransferAll(records: seq<DBRecord>) returns (copies: seq<DBRecord>, written: nat, read: nat)
    requires forall r :: r in records ==> Fits(Views(r.m_FieldList))
    ensures |copies| == |records| && written == read
    ensures forall c :: c in copies ==> fresh(c)
    ensures forall i :: 0 <= i < |records| ==>
      Views(copies[i].m_FieldList) == Normals(Views(records[i].m_FieldList))
  {
    hide RecordBytes, RecordsBytes, Views, Fits, Normals;
    var buf;
    ghost var rs;
    buf, written, rs := SerializeAll(records);
    forall r | r in rs ensures Fits(r) {
      var i :| 0 <= i < |rs| && rs[i] == r;
      assert records[i] in records;
    }
    assert buf[0..0 + |RecordsBytes(rs)|] == buf[..];
    copies, read := UnSerializeAll(buf[..], |records|, rs);
  }
}
