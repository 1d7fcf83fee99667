/**
 The attribute list of DataSet.cpp: an ordered list of (key, value) pairs
 with lookup, in-place update, removal, the text form written by `write`
 and the parser `read` that reads it back.

 A `DataType*` is modelled by an immutable `Value`, so a clone is the value
 itself, and a stored null pointer by None. Serializers are registered per C++ type name and per output type
 name; their reading, writing and printing are parameters of the model. The
 DataSet.h header is not part of this model.
 */
module DataSet {
  import opened Wrappers

  /** The data of a value: serialized by its type's serializer, or a pointer to a graph property. */
  datatype Data = Raw(payload: string) | PropertyRef(name: Option<string>)

  datatype Value = Value(typeName: string, data: Data)

  /** An entry's value is None where a null pointer was stored. */
  datatype Entry = Entry(key: string, value: Option<Value>)

  type Set = seq<Entry>

  // ---------------------------------------------------------------------------
  // Lookup and update
  // ---------------------------------------------------------------------------

  /** `exists`: some entry has key `k`. */
  function Exists(ds: Set, k: string): (r: bool)
    ensures r <==> exists i :: 0 <= i < |ds| && ds[i].key == k
  {
    if |ds| == 0 then false else ds[0].key == k || Exists(ds[1..], k)
  }

  /** The index of the first entry with key `k`. */
  function IndexOf(ds: Set, k: string): (r: Option<nat>)
    ensures r.None? <==> !Exists(ds, k)
    ensures r.Some? ==> r.value < |ds| && ds[r.value].key == k
                        && forall i :: 0 <= i < r.value ==> ds[i].key != k
  {
    if |ds| == 0 then None
    else if ds[0].key == k then Some(0)
    else match IndexOf(ds[1..], k)
      case None => None
      case Some(i) => Some(i + 1)
  }

  /**
   `getData`: the value of the first entry with key `k`; None (a null
   pointer) without one, or where that entry holds a null pointer.
   */
  function GetData(ds: Set, k: string): (r: Option<Value>)
    ensures r.None? <==> !Exists(ds, k) || ds[IndexOf(ds, k).value].value.None?
    ensures r.Some? ==> exists i :: 0 <= i < |ds| && ds[i].key == k && ds[i].value == r
  {
    match IndexOf(ds, k)
    case None => None
    case Some(i) => ds[i].value
  }

  /**
   `getTypeName`: the type name of the value under `k`, or the empty string
   without one; None where the entry holds a null pointer, which the source
   dereferences (undefined behaviour).
   */
  function GetTypeName(ds: Set, k: string): (r: Option<string>)
    ensures !Exists(ds, k) ==> r == Some("")
    ensures r.None? <==> Exists(ds, k) && GetData(ds, k).None?
    ensures GetData(ds, k).Some? ==> r == Some(GetData(ds, k).value.typeName)
  {
    match IndexOf(ds, k)
    case None => Some("")
    case Some(i) =>
      match ds[i].value
      case None => None
      case Some(v) => Some(v.typeName)
  }

  /**
   `setData`: the first entry with key `k` gets the new value (possibly a
   null pointer) in place; without one, a new entry is appended.
   */
  function SetData(ds: Set, k: string, v: Option<Value>): (r: Set)
    ensures Exists(ds, k) ==> |r| == |ds|
    ensures !Exists(ds, k) ==> r == ds + [Entry(k, v)]
    ensures forall i :: 0 <= i < |ds| ==> r[i].key == ds[i].key
    ensures forall i :: 0 <= i < |ds| && IndexOf(ds, k) != Some(i) ==> r[i] == ds[i]
  {
    match IndexOf(ds, k)
    case None => ds + [Entry(k, v)]
    case Some(i) => ds[i := Entry(k, v)]
  }

  /** `remove`: the first entry with key `k` is deleted; nothing happens without one. */
  function Remove(ds: Set, k: string): (r: Set)
    ensures !Exists(ds, k) ==> r == ds
    ensures Exists(ds, k) ==> |r| == |ds| - 1
    ensures Exists(ds, k) ==>
              var i := IndexOf(ds, k).value;
              r[..i] == ds[..i] && r[i..] == ds[i + 1..]
  {
    match IndexOf(ds, k)
    case None => ds
    case Some(i) => ds[..i] + ds[i + 1..]
  }

  /** The value just set is the one read back; other keys read as before. */
  lemma GetAfterSet(ds: Set, k: string, v: Option<Value>, k2: string)
    ensures Exists(SetData(ds, k, v), k) && GetData(SetData(ds, k, v), k) == v
    ensures k2 != k ==> GetData(SetData(ds, k, v), k2) == GetData(ds, k2)
  {
    var r := SetData(ds, k, v);
    match IndexOf(ds, k)
    case None =>
      assert r[|ds|] == Entry(k, v);
      assert IndexOf(r, k) == Some(|ds|);
      if k2 != k {
        IndexOfSame(ds, r, k2);
      }
    case Some(i) =>
      assert r[i] == Entry(k, v);
      assert IndexOf(r, k) == Some(i);
      if k2 != k {
        IndexOfSame(ds, r, k2);
      }
  }

  /** Two lists whose keys agree, and whose values agree at `k2`'s first entry, read alike at `k2`. */
  lemma IndexOfSame(ds: Set, r: Set, k2: string)
    requires |ds| <= |r|
    requires forall i :: 0 <= i < |ds| ==> r[i].key == ds[i].key
    requires forall i :: |ds| <= i < |r| ==> r[i].key != k2
    requires forall i :: 0 <= i < |ds| && ds[i].key == k2 ==> r[i] == ds[i]
    ensures GetData(r, k2) == GetData(ds, k2)
  {
    match IndexOf(ds, k2)
    case None =>
      assert !Exists(r, k2) by {
        forall i | 0 <= i < |r| ensures r[i].key != k2 {
          if i < |ds| {
            assert ds[i].key != k2;
          }
        }
      }
    case Some(j) =>
      assert r[j] == ds[j];
      assert IndexOf(r, k2) == Some(j) by {
        var q := IndexOf(r, k2);
        assert q.Some?;
        assert q.value <= j;
        assert r[q.value].key == ds[q.value].key;
      }
  }

  /** Setting a new key and removing it again gives back the list. */
  lemma RemoveAfterSet(ds: Set, k: string, v: Option<Value>)
    requires !Exists(ds, k)
    ensures Remove(SetData(ds, k, v), k) == ds
  {
    var r := ds + [Entry(k, v)];
    assert IndexOf(r, k) == Some(|ds|) by {
      assert r[|ds|].key == k;
    }
  }

  /** No key appears twice. */
  ghost predicate DistinctKeys(ds: Set)
  {
    forall i, j :: 0 <= i < j < |ds| ==> ds[i].key != ds[j].key
  }

  /** A list built by `setData` and `remove` never holds a key twice, and a removed key is gone. */
  lemma DistinctKeysKept(ds: Set, k: string, v: Option<Value>)
    requires DistinctKeys(ds)
    ensures DistinctKeys(SetData(ds, k, v))
    ensures DistinctKeys(Remove(ds, k)) && !Exists(Remove(ds, k), k)
  {
    var r := Remove(ds, k);
    if Exists(ds, k) {
      var i := IndexOf(ds, k).value;
      assert r == ds[..i] + ds[i + 1..];
      forall a | 0 <= a < |r| ensures r[a].key != k {
        if a < i {
          assert r[a] == ds[a];
        } else {
          assert r[a] == ds[a + 1];
        }
      }
    }
  }

  // ---------------------------------------------------------------------------
  // Serializers
  // ---------------------------------------------------------------------------

  /** Reading returns the value and the number of characters it consumed. */
  datatype Serializer = Serializer(
    outputTypeName: string,
    write: Value -> string,
    read: string -> Option<(Value, nat)>,
    show: Value -> string)

  /** `tnTodts` (by C++ type name) and `otnTodts` (by output type name). */
  datatype Registry = Registry(byType: map<string, Serializer>, byOutput: map<string, Serializer>)

  /** `registerDataTypeSerializer`: the serializer is found under both names afterwards. */
  function Register(reg: Registry, typeName: string, dts: Serializer): (r: Registry)
    ensures typeName in r.byType && r.byType[typeName] == dts
    ensures dts.outputTypeName in r.byOutput && r.byOutput[dts.outputTypeName] == dts
    ensures forall t :: t in reg.byType && t != typeName ==> t in r.byType && r.byType[t] == reg.byType[t]
  {
    Registry(reg.byType[typeName := dts], reg.byOutput[dts.outputTypeName := dts])
  }

  /** `typenameToSerializer`. */
  function SerializerOf(reg: Registry, typeName: string): (r: Option<Serializer>)
    ensures r.Some? <==> typeName in reg.byType
  {
    if typeName in reg.byType then Some(reg.byType[typeName]) else None
  }

  /** `writeData`: `(otn "key" data)` and a newline; nothing for a type without a serializer. */
  function WriteData(reg: Registry, key: string, v: Value): string
  {
    match SerializerOf(reg, v.typeName)
    case None => ""
    case Some(z) => EntryText(z.outputTypeName, key, z.write(v))
  }

  function EntryText(otn: string, key: string, w: string): string
  {
    ['('] + Framed(otn, key, w + [')', '\n'])
  }

  /** An entry's text after its `(`, up to its data `x` (and whatever follows the data). */
  function Framed(otn: string, key: string, x: string): string
  {
    otn + ([' '] + (['"'] + (key + (['"'] + ([' '] + x)))))
  }

  /** Two texts one after the other; None where either is undefined. */
  function Concat(a: Option<string>, b: Option<string>): Option<string>
  {
    if a.Some? && b.Some? then Some(a.value + b.value) else None
  }

  /** One entry's text; None for a null pointer, whose type name `writeData` dereferences. */
  function WriteEntry(reg: Registry, e: Entry): Option<string>
  {
    match e.value
    case None => None
    case Some(v) => Some(WriteData(reg, e.key, v))
  }

  /** The entries' texts in order; undefined as soon as one entry holds a null pointer. */
  function WriteEntries(reg: Registry, ds: Set): (r: Option<string>)
    ensures r.None? <==> exists i :: 0 <= i < |ds| && ds[i].value.None?
    decreases |ds|
  {
    if |ds| == 0 then Some("")
    else
      var r := Concat(WriteEntry(reg, ds[0]), WriteEntries(reg, ds[1..]));
      assert r.None? <==> exists i :: 0 <= i < |ds| && ds[i].value.None? by {
        assert forall i :: 0 < i < |ds| ==> ds[i] == ds[1..][i - 1];
      }
      r
  }

  /** `write`: a newline, then every entry in order. */
  function Write(reg: Registry, ds: Set): Option<string>
  {
    Concat(Some("\n"), WriteEntries(reg, ds))
  }

  // ---------------------------------------------------------------------------
  // The parser
  // ---------------------------------------------------------------------------
  // The stream is the text not read yet; each step returns what it leaves unread.

  /** C's `isspace`. */
  predicate IsSpace(c: char)
  {
    c == ' ' || c == '\t' || c == '\n' || c == '\U{B}' || c == '\U{C}' || c == '\r'
  }

  /** The input after its leading spaces. */
  function SkipSpaces(s: string): (r: string)
    ensures |r| <= |s|
    ensures |r| > 0 ==> !IsSpace(r[0])
  {
    if |s| == 0 || !IsSpace(s[0]) then s else SkipSpaces(s[1..])
  }

  /** The longest prefix without a space, and what follows it. */
  function Word(s: string): (r: (string, string))
    ensures |r.0| + |r.1| == |s|
    ensures |r.1| > 0 ==> IsSpace(r.1[0])
  {
    if |s| == 0 || IsSpace(s[0]) then ("", s)
    else var (w, rest) := Word(s[1..]); ([s[0]] + w, rest)
  }

  /** The longest prefix without a quote, and what follows it. */
  function UntilQuote(s: string): (r: (string, string))
    ensures |r.0| + |r.1| == |s|
    ensures |r.1| > 0 ==> r.1[0] == '"'
  {
    if |s| == 0 || s[0] == '"' then ("", s)
    else var (w, rest) := UntilQuote(s[1..]); ([s[0]] + w, rest)
  }

  /** What precedes an entry's data: its output type name and its property name. */
  datatype Header = Header(otn: string, prop: string)

  /**
   From just after `(`: spaces, the output type name up to a space, then
   the property name; None where the input ends too early.
   */
  function ReadHeader(s: string): (r: Option<(Header, string)>)
    ensures r.Some? ==> 0 < |r.value.1| < |s|
  {
    var a := SkipSpaces(s);
    if |a| == 0 then None
    else
      var (otn, b) := Word(a);
      if |b| == 0 then None else ReadPropName(otn, b[1..])
  }

  /** Spaces, the property name between quotes, then the data; None without the quotes. */
  function ReadPropName(otn: string, s: string): (r: Option<(Header, string)>)
    ensures r.Some? ==> 0 < |r.value.1| < |s|
  {
    var c := SkipSpaces(s);
    if |c| == 0 || c[0] != '"' then None
    else
      var (prop, d) := UntilQuote(c[1..]);
      if |d| == 0 then None else DataStart(Header(otn, prop), d[1..])
  }

  /** The data starts at the first character that is not a space. */
  function DataStart(h: Header, s: string): (r: Option<(Header, string)>)
    ensures r.Some? ==> 0 < |r.value.1| <= |s| && !IsSpace(r.value.1[0])
  {
    var e := SkipSpaces(s);
    if |e| == 0 then None else Some((h, e))
  }

  /**
   The reading half of `readData`: the serializer registered for the output
   type name reads a value; None for an unknown output type name or an
   unreadable value.
   */
  function ReadData(reg: Registry, s: string, otn: string): (r: Option<(Value, string)>)
    ensures otn !in reg.byOutput ==> r.None?
    ensures r.Some? ==> |r.value.1| <= |s|
  {
    if otn !in reg.byOutput then None
    else match reg.byOutput[otn].read(s)
      case None => None
      case Some((v, n)) => Some((v, s[if n <= |s| then n else |s|..]))
  }

  /**
   One entry: read whole, or failed; a failure after the value was read
   still keeps it, since `readData` stores the value before the closing
   `)` is looked for.
   */
  datatype EntryResult = EntryOk(entry: Entry, rest: string) | EntryFail(kept: Option<Entry>)

  /** After the data: spaces, then the closing `)`. */
  function CloseEntry(s: string, e: Entry): (r: EntryResult)
    ensures r.EntryOk? ==> |r.rest| < |s| && r.entry == e
    ensures r.EntryFail? ==> r.kept == Some(e)
  {
    var f := SkipSpaces(s);
    if |f| == 0 || f[0] != ')' then EntryFail(Some(e)) else EntryOk(e, f[1..])
  }

  /** One `(otn "prop" data)` entry, from just after its `(`. */
  function ReadEntry(reg: Registry, s: string): (r: EntryResult)
    ensures r.EntryOk? ==> |r.rest| < |s|
  {
    match ReadHeader(s)
    case None => EntryFail(None)
    case Some((h, data)) =>
      match ReadData(reg, data, h.otn)
      case None => EntryFail(None)
      case Some((v, p)) => CloseEntry(p, Entry(h.prop, Some(v)))
  }

  /** The entries read, in order, whether reading succeeded, and the text left. */
  datatype Scan = Scan(ok: bool, entries: seq<Entry>, rest: string)

  /**
   The loop of `read`: entries are read until a `)` that belongs to the
   caller, which is left unread, or the end of the input (a stream at its
   end reports success); anything else that does not open an entry is an
   error.
   */
  function ScanEntries(reg: Registry, s: string): (r: Scan)
    ensures r.ok ==> |r.rest| <= |s| && (|r.rest| == 0 || r.rest[0] == ')')
    decreases |s|
  {
    var j := SkipSpaces(s);
    if |j| == 0 || j[0] == ')' then Scan(true, [], j)
    else if j[0] != '(' then Scan(false, [], j)
    else match ReadEntry(reg, j[1..])
      case EntryFail(None) => Scan(false, [], j)
      case EntryFail(Some(e)) => Scan(false, [e], j)
      case EntryOk(e, next) =>
        var r := ScanEntries(reg, next);
        Scan(r.ok, [e] + r.entries, r.rest)
  }

  /** Every entry read is stored with `setData`, in order. */
  function SetAll(ds: Set, items: seq<Entry>): Set
    decreases |items|
  {
    if |items| == 0 then ds else SetAll(SetData(ds, items[0].key, items[0].value), items[1..])
  }

  /** Storing more entries never loses a key. */
  lemma {:induction false} SetAllKeeps(ds: Set, items: seq<Entry>, k: string)
    requires Exists(ds, k)
    ensures Exists(SetAll(ds, items), k)
    decreases |items|
  {
    if |items| > 0 {
      var ds' := SetData(ds, items[0].key, items[0].value);
      var i :| 0 <= i < |ds| && ds[i].key == k;
      assert ds'[i].key == k;
      assert Exists(ds', k);
      SetAllKeeps(ds', items[1..], k);
    }
  }

  datatype ReadResult = ReadResult(ok: bool, ds: Set, rest: string)

  /** `read`: the entries scanned are stored into `ds`, also those read before a failure. */
  function Read(reg: Registry, s: string, ds: Set): (r: ReadResult)
    ensures forall i :: 0 <= i < |ds| ==> Exists(r.ds, ds[i].key)
  {
    var sc := ScanEntries(reg, s);
    var r := ReadResult(sc.ok, SetAll(ds, sc.entries), sc.rest);
    assert forall i :: 0 <= i < |ds| ==> Exists(r.ds, ds[i].key) by {
      forall i | 0 <= i < |ds| ensures Exists(r.ds, ds[i].key) {
        SetAllKeeps(ds, sc.entries, ds[i].key);
      }
    }
    r
  }

  /** An output type name the parser can read back: one word. */
  predicate IsWord(w: string)
  {
    |w| > 0 && forall k :: 0 <= k < |w| ==> !IsSpace(w[k])
  }

  /** A word followed by a space splits off whole. */
  lemma {:induction false} WordOver(w: string, rest: string)
    requires forall k :: 0 <= k < |w| ==> !IsSpace(w[k])
    requires |rest| > 0 && IsSpace(rest[0])
    ensures Word(w + rest) == (w, rest)
  {
    if |w| > 0 {
      assert (w + rest)[1..] == w[1..] + rest;
      WordOver(w[1..], rest);
      assert [w[0]] + w[1..] == w;
    } else {
      assert w + rest == rest;
    }
  }

  /** A quote-free name followed by a quote splits off whole. */
  lemma {:induction false} UntilQuoteOver(w: string, rest: string)
    requires forall k :: 0 <= k < |w| ==> w[k] != '"'
    requires |rest| > 0 && rest[0] == '"'
    ensures UntilQuote(w + rest) == (w, rest)
  {
    if |w| > 0 {
      assert (w + rest)[1..] == w[1..] + rest;
      UntilQuoteOver(w[1..], rest);
      assert [w[0]] + w[1..] == w;
    } else {
      assert w + rest == rest;
    }
  }

  /** The header of a written entry is read back whole, leaving its data. */
  lemma HeaderOf(otn: string, key: string, x: string)
    requires IsWord(otn) && (forall k :: 0 <= k < |key| ==> key[k] != '"')
    requires |x| > 0 && !IsSpace(x[0])
    ensures ReadHeader(Framed(otn, key, x)) == Some((Header(otn, key), x))
  {
    var b := [' '] + (['"'] + (key + (['"'] + ([' '] + x))));
    var s := otn + b;
    assert SkipSpaces(s) == s by {
      assert s[0] == otn[0];
    }
    WordOver(otn, b);
    PropNameOf(otn, key, x);
  }

  lemma PropNameOf(otn: string, key: string, x: string)
    requires forall k :: 0 <= k < |key| ==> key[k] != '"'
    requires |x| > 0 && !IsSpace(x[0])
    ensures ReadPropName(otn, ['"'] + (key + (['"'] + ([' '] + x)))) == Some((Header(otn, key), x))
  {
    var d := ['"'] + ([' '] + x);
    var c := ['"'] + (key + d);
    assert SkipSpaces(c) == c;
    UntilQuoteOver(key, d);
    assert SkipSpaces([' '] + x) == SkipSpaces(x);
    assert SkipSpaces(x) == x;
  }

  /** An entry whose property name does not open with a quote is rejected, nothing being read. */
  lemma ReadRejectsUnquoted(reg: Registry, otn: string, c: char, rest: string)
    requires IsWord(otn) && !IsSpace(c) && c != '"'
    ensures ScanEntries(reg, ['('] + (otn + ([' ', c] + rest))) == Scan(false, [], ['('] + (otn + ([' ', c] + rest)))
  {
    var b := [' ', c] + rest;
    assert SkipSpaces(['('] + (otn + b)) == ['('] + (otn + b);
    assert ReadHeader(otn + b).None? by {
      assert SkipSpaces(otn + b) == otn + b by {
        assert (otn + b)[0] == otn[0];
      }
      WordOver(otn, b);
      assert b[1..] == [c] + rest;
      assert SkipSpaces([c] + rest) == [c] + rest;
    }
  }

  // ---------------------------------------------------------------------------
  // Writing then reading
  // ---------------------------------------------------------------------------

  /**
   What a round trip needs of one entry: its type has a serializer that is
   also the one registered under its output type name, that name is one
   word, the key holds no quote, and the serializer's text is non-empty, does
   not open with a space and reads back as the value, whatever follows it.
   */
  ghost predicate Readable(reg: Registry, e: Entry)
  {
    e.value.Some? && e.value.value.typeName in reg.byType
    && var z := reg.byType[e.value.value.typeName];
    z.outputTypeName in reg.byOutput && reg.byOutput[z.outputTypeName] == z
    && IsWord(z.outputTypeName)
    && (forall k :: 0 <= k < |e.key| ==> e.key[k] != '"')
    && var w := z.write(e.value.value);
    |w| > 0 && !IsSpace(w[0])
    && forall rest :: z.read(w + rest) == Some((e.value.value, |w|))
  }

  /** Every entry of `ds` is readable. */
  ghost predicate AllReadable(reg: Registry, ds: Set)
    decreases |ds|
  {
    |ds| == 0 || (Readable(reg, ds[0]) && AllReadable(reg, ds[1..]))
  }

  /** The serializer's text of a readable entry's value. */
  function DataText(reg: Registry, e: Entry): string
    requires e.value.Some? && e.value.value.typeName in reg.byType
  {
    reg.byType[e.value.value.typeName].write(e.value.value)
  }

  lemma FramedAppend(otn: string, key: string, x: string, y: string)
    ensures Framed(otn, key, x) + y == Framed(otn, key, x + y)
  {
    var t0 := [' '] + x;
    var t1 := ['"'] + t0;
    var t2 := key + t1;
    var t3 := ['"'] + t2;
    var t4 := [' '] + t3;
    assert t0 + y == [' '] + (x + y);
    assert t1 + y == ['"'] + (t0 + y);
    assert t2 + y == key + (t1 + y);
    assert t3 + y == ['"'] + (t2 + y);
    assert t4 + y == [' '] + (t3 + y);
    assert (otn + t4) + y == otn + (t4 + y);
  }

  /** A written entry followed by more text, as the parser splits it. */
  lemma WrittenEntry(reg: Registry, e: Entry, more: string)
    requires Readable(reg, e)
    ensures var z := reg.byType[e.value.value.typeName];
            WriteData(reg, e.key, e.value.value) + more
            == ['('] + Framed(z.outputTypeName, e.key, DataText(reg, e) + ([')'] + (['\n'] + more)))
  {
    var z := reg.byType[e.value.value.typeName];
    var w := DataText(reg, e);
    FramedAppend(z.outputTypeName, e.key, w + [')', '\n'], more);
    assert (w + [')', '\n']) + more == w + ([')'] + (['\n'] + more));
  }

  /** The serializer reads a readable entry's value back from its text, whatever follows. */
  lemma ReadDataOf(reg: Registry, e: Entry, tail: string)
    requires Readable(reg, e)
    ensures var z := reg.byType[e.value.value.typeName];
            ReadData(reg, DataText(reg, e) + tail, z.outputTypeName) == Some((e.value.value, tail))
  {
    var z := reg.byType[e.value.value.typeName];
    var w := DataText(reg, e);
    assert z.read(w + tail) == Some((e.value.value, |w|));
    assert (w + tail)[|w|..] == tail;
  }

  /** One written entry is read back whole, up to its closing `)`. */
  lemma ReadOneEntry(reg: Registry, e: Entry, rest: string)
    requires Readable(reg, e)
    ensures var z := reg.byType[e.value.value.typeName];
            ReadEntry(reg, Framed(z.outputTypeName, e.key, DataText(reg, e) + ([')'] + rest)))
            == EntryOk(e, rest)
  {
    var z := reg.byType[e.value.value.typeName];
    var x := DataText(reg, e) + ([')'] + rest);
    assert |x| > 0 && !IsSpace(x[0]);
    HeaderOf(z.outputTypeName, e.key, x);
    ReadDataOf(reg, e, [')'] + rest);
    assert SkipSpaces([')'] + rest) == [')'] + rest;
  }

  /** An entry whose data is not followed by `)` is rejected, the value read being kept. */
  lemma ReadRejectsUnclosed(reg: Registry, e: Entry, c: char, rest: string)
    requires Readable(reg, e)
    requires !IsSpace(c) && c != ')'
    ensures var z := reg.byType[e.value.value.typeName];
            var t := ['('] + Framed(z.outputTypeName, e.key, DataText(reg, e) + ([c] + rest));
            ScanEntries(reg, t) == Scan(false, [e], t)
  {
    var z := reg.byType[e.value.value.typeName];
    var x := DataText(reg, e) + ([c] + rest);
    var f := Framed(z.outputTypeName, e.key, x);
    assert SkipSpaces(['('] + f) == ['('] + f;
    assert ReadEntry(reg, f) == EntryFail(Some(e)) by {
      assert |x| > 0 && !IsSpace(x[0]);
      HeaderOf(z.outputTypeName, e.key, x);
      ReadDataOf(reg, e, [c] + rest);
      assert SkipSpaces([c] + rest) == [c] + rest;
    }
  }

  /** After an entry read whole and its newline, scanning goes on with what follows. */
  lemma ScanAfterEntry(reg: Registry, f: string, e: Entry, more: string)
    requires ReadEntry(reg, f) == EntryOk(e, ['\n'] + more)
    ensures var r := ScanEntries(reg, more);
            ScanEntries(reg, ['('] + f) == Scan(r.ok, [e] + r.entries, r.rest)
  {
    assert SkipSpaces(['('] + f) == ['('] + f;
    assert (['('] + f)[1..] == f;
    assert SkipSpaces(['\n'] + more) == SkipSpaces(more);
  }

  /** The written first entry of `ds` is scanned, then the text of the others. */
  lemma ScanWrittenHead(reg: Registry, ds: Set)
    requires |ds| > 0 && Readable(reg, ds[0]) && WriteEntries(reg, ds[1..]).Some?
    ensures WriteEntries(reg, ds).Some?
    ensures var r := ScanEntries(reg, WriteEntries(reg, ds[1..]).value);
            ScanEntries(reg, WriteEntries(reg, ds).value) == Scan(r.ok, [ds[0]] + r.entries, r.rest)
  {
    var e := ds[0];
    var z := reg.byType[e.value.value.typeName];
    var more := WriteEntries(reg, ds[1..]).value;
    var f := Framed(z.outputTypeName, e.key, DataText(reg, e) + ([')'] + (['\n'] + more)));
    WrittenEntry(reg, e, more);
    ReadOneEntry(reg, e, ['\n'] + more);
    ScanAfterEntry(reg, f, e, more);
  }

  /** The written entries of `ds` are scanned back as `ds`, up to the end of the text. */
  lemma {:induction false} ScanWritten(reg: Registry, ds: Set)
    requires AllReadable(reg, ds)
    ensures WriteEntries(reg, ds).Some?
    ensures ScanEntries(reg, WriteEntries(reg, ds).value) == Scan(true, ds, "")
    decreases |ds|
  {
    if |ds| == 0 {
      assert SkipSpaces("") == "";
    } else {
      ScanWritten(reg, ds[1..]);
      ScanWrittenHead(reg, ds);
      assert [ds[0]] + ds[1..] == ds;
    }
  }

  /** Taking the first entry of `ds` over into `acc` keeps the rest fresh for it. */
  lemma FreshTail(acc: Set, ds: Set)
    requires |ds| > 0 && DistinctKeys(ds)
    requires forall i :: 0 <= i < |ds| ==> !Exists(acc, ds[i].key)
    ensures DistinctKeys(ds[1..])
    ensures forall i :: 0 <= i < |ds| - 1 ==> !Exists(acc + [ds[0]], ds[1..][i].key)
  {
    forall i | 0 <= i < |ds| - 1 ensures !Exists(acc + [ds[0]], ds[1..][i].key) {
      assert ds[1..][i] == ds[i + 1];
      assert !Exists(acc, ds[i + 1].key);
      assert ds[0].key != ds[i + 1].key;
    }
  }

  /** Storing entries with distinct keys that `acc` lacks appends them. */
  lemma {:induction false} SetAllFresh(acc: Set, ds: Set)
    requires DistinctKeys(ds)
    requires forall i :: 0 <= i < |ds| ==> !Exists(acc, ds[i].key)
    ensures SetAll(acc, ds) == acc + ds
    decreases |ds|
  {
    if |ds| > 0 {
      var acc' := acc + [ds[0]];
      assert SetAll(acc, ds) == SetAll(acc', ds[1..]) by {
        assert !Exists(acc, ds[0].key);
        assert SetData(acc, ds[0].key, ds[0].value) == acc';
      }
      assert SetAll(acc', ds[1..]) == acc' + ds[1..] by {
        FreshTail(acc, ds);
        SetAllFresh(acc', ds[1..]);
      }
      assert acc' + ds[1..] == acc + ds;
    }
  }

  /**
   `read` gives back what `write` wrote: a data set whose keys are distinct
   and whose values all have serializers that read back what they write
   is read back whole into an empty set.
   */
  lemma WriteReadRoundTrip(reg: Registry, ds: Set)
    requires AllReadable(reg, ds)
    requires DistinctKeys(ds)
    ensures Write(reg, ds).Some?
    ensures Read(reg, Write(reg, ds).value, []) == ReadResult(true, ds, "")
  {
    ScanWritten(reg, ds);
    var more := WriteEntries(reg, ds).value;
    assert Write(reg, ds) == Some(['\n'] + more);
    ScanNewline(reg, more);
    SetAllFresh([], ds);
    assert [] + ds == ds;
  }

  /** The newline `write` starts with is skipped. */
  lemma ScanNewline(reg: Registry, s: string)
    ensures ScanEntries(reg, ['\n'] + s) == ScanEntries(reg, s)
  {
    assert SkipSpaces(['\n'] + s) == SkipSpaces(s);
  }

  // ---------------------------------------------------------------------------
  // Printing
  // ---------------------------------------------------------------------------

  /** The property classes whose values (or pointers to them) are graph properties. */
  const PropertyClasses: set<string> := {
    "tlp::BooleanProperty", "tlp::BooleanVectorProperty", "tlp::DoubleProperty",
    "tlp::DoubleVectorProperty", "tlp::LayoutProperty", "tlp::CoordVectorProperty",
    "tlp::StringProperty", "tlp::StringVectorProperty", "tlp::IntegerProperty",
    "tlp::IntegerVectorProperty", "tlp::SizeProperty", "tlp::SizeVectorProperty",
    "tlp::ColorProperty", "tlp::ColorVectorProperty", "tlp::NumericProperty",
    "tlp::PropertyInterface", "tlp::GraphProperty"
  }

  /** `isTalipotProperty`: a property class or a pointer to one. */
  function IsTalipotProperty(typeName: string): (r: bool)
    ensures r <==> exists c :: c in PropertyClasses && (typeName == c || typeName == c + "*")
  {
    if typeName in PropertyClasses then true
    else if |typeName| > 0 && typeName[|typeName| - 1] == '*' then
      var c := typeName[..|typeName| - 1];
      assert typeName == c + "*";
      c in PropertyClasses
    else false
  }

  /**
   The text `toString` gives one entry: None for a null pointer, whose type
   name `toString` dereferences.
   */
  function EntryString(reg: Registry, e: Entry): (r: Option<string>)
    ensures r.None? <==> e.value.None?
    ensures r == Some("") <==> Hidden(reg, e)
    ensures r.Some? && r.value != "" ==> StartsWithKey(r.value, e.key) && r.value[|r.value| - 1] == ' '
  {
    var head := "'" + e.key + "'=";
    match e.value
    case None => None
    case Some(v) =>
      if v.typeName in reg.byType then
        Some(head + reg.byType[v.typeName].show(v) + " ")
      else if IsTalipotProperty(v.typeName) then
        Some(head + (match v.data
                     case PropertyRef(Some(n)) => "\"" + n + "\""
                     case _ => "None") + " ")
      else Some("")
  }

  /** `r` opens with the key between single quotes and an `=`. */
  predicate StartsWithKey(r: string, key: string)
  {
    |r| >= |key| + 3 && r[..|key| + 3] == "'" + key + "'="
  }

  /** `toString`: the entries' texts in order; undefined as soon as one entry holds a null pointer. */
  function ToString(reg: Registry, ds: Set): (r: Option<string>)
    ensures r.None? <==> exists i :: 0 <= i < |ds| && ds[i].value.None?
    decreases |ds|
  {
    if |ds| == 0 then Some("")
    else
      var r := Concat(EntryString(reg, ds[0]), ToString(reg, ds[1..]));
      assert r.None? <==> exists i :: 0 <= i < |ds| && ds[i].value.None? by {
        assert forall i :: 0 < i < |ds| ==> ds[i] == ds[1..][i - 1];
      }
      r
  }

  /** Printing distributes over concatenation. */
  lemma {:induction false} ToStringAppend(reg: Registry, a: Set, b: Set)
    ensures ToString(reg, a + b) == Concat(ToString(reg, a), ToString(reg, b))
    decreases |a|
  {
    if |a| == 0 {
      assert a + b == b;
      var y := ToString(reg, b);
      if y.Some? {
        assert "" + y.value == y.value;
      }
    } else {
      var h := EntryString(reg, a[0]);
      assert (a + b)[0] == a[0] && (a + b)[1..] == a[1..] + b;
      assert ToString(reg, a + b) == Concat(h, ToString(reg, a[1..] + b));
      ToStringAppend(reg, a[1..], b);
      ConcatAssoc(h, ToString(reg, a[1..]), ToString(reg, b));
    }
  }

  lemma ConcatAssoc(x: Option<string>, y: Option<string>, z: Option<string>)
    ensures Concat(x, Concat(y, z)) == Concat(Concat(x, y), z)
  {
    if x.Some? && y.Some? && z.Some? {
      assert x.value + (y.value + z.value) == (x.value + y.value) + z.value;
    }
  }

  /** An entry holding a value with neither a serializer nor a property type. */
  predicate Hidden(reg: Registry, e: Entry)
  {
    e.value.Some? && e.value.value.typeName !in reg.byType && !IsTalipotProperty(e.value.value.typeName)
  }

  /** A set holding only entries that cannot be shown prints as nothing. */
  lemma {:induction false} ToStringHidden(reg: Registry, ds: Set)
    requires forall i :: 0 <= i < |ds| ==> Hidden(reg, ds[i])
    ensures ToString(reg, ds) == Some("")
    decreases |ds|
  {
    if |ds| > 0 {
      assert EntryString(reg, ds[0]) == Some("");
      ToStringHidden(reg, ds[1..]);
      assert "" + "" == "";
    }
  }
}
