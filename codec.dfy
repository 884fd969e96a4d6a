/** The snapshot format written by SAVE and read by LOAD (CRT.cpp:487-640):
    a table count, then per table its name, next_id, its columns (name and
    type) and its rows (id, then the values). Every length and count is a
    size_t, fixed here at 8 bytes; ids and next_id are 4-byte ints; both in
    little-endian order. Strings are their raw bytes with no terminator.
    Unlike the original, the decoder checks every length against what is
    left and reports a short or truncated input as None. */
module Codec {
  import opened Wrappers
  import opened Strings
  import opened Tables

  newtype byte = x: int | 0 <= x < 256

  /** A value decoded from the front of a byte sequence, and what follows it. */
  datatype Decoded<T> = Decoded(value: T, rest: seq<byte>)

  /** 2^64: the sizes an 8-byte size_t can hold. */
  const SIZE_LIMIT: nat := 0x1_0000_0000_0000_0000

  function Pow256(k: nat): (p: nat)
    ensures p >= 1
  {
    if k == 0 then 1 else 256 * Pow256(k - 1)
  }

  /** Four bytes hold the 2^32 values of an int, eight the 2^64 of a size_t. */
  lemma WidthLimits()
    ensures Pow256(4) == 0x1_0000_0000
    ensures Pow256(8) == SIZE_LIMIT
  {
  }

  /** n written in `width` bytes, least significant first. */
  function ToLE(n: nat, width: nat): (r: seq<byte>)
    ensures |r| == width
  {
    if width == 0 then [] else [(n % 256) as byte] + ToLE(n / 256, width - 1)
  }

  /** The number a little-endian byte sequence stands for. */
  function FromLE(s: seq<byte>): (n: nat)
    ensures n < Pow256(|s|)
  {
    if s == [] then 0
    else
      var m := FromLE(s[1..]);
      assert s[0] as nat + 256 * m <= 255 + 256 * (Pow256(|s| - 1) - 1);
      s[0] as nat + 256 * m
  }

  lemma {:induction false} FromLEOfToLE(n: nat, width: nat)
    requires n < Pow256(width)
    ensures FromLE(ToLE(n, width)) == n
  {
    if width > 0 {
      var p := Pow256(width - 1);
      assert n / 256 < p by {
        assert n < 256 * p;
      }
      FromLEOfToLE(n / 256, width - 1);
      var r := ToLE(n, width);
      assert r[1..] == ToLE(n / 256, width - 1);
    }
  }

  /** A size_t field: sizes beyond 2^64 are taken modulo 2^64, as the
      conversion to size_t would (no such size can occur in memory). */
  function EncodeSize(n: nat): (r: seq<byte>)
    ensures |r| == 8
  {
    ToLE(n % SIZE_LIMIT, 8)
  }

  function DecodeSize(b: seq<byte>): (r: Option<Decoded<nat>>)
    ensures r.Some? ==> r.value.value < SIZE_LIMIT && |r.value.rest| == |b| - 8
    ensures r.None? <==> |b| < 8
  {
    if |b| < 8 then None
    else
      WidthLimits();
      Some(Decoded(FromLE(b[..8]), b[8..]))
  }

  lemma SizeRoundTrip(n: nat, rest: seq<byte>)
    requires n < SIZE_LIMIT
    ensures DecodeSize(EncodeSize(n) + rest) == Some(Decoded(n, rest))
  {
    WidthLimits();
    FromLEOfToLE(n, 8);
    var b := EncodeSize(n) + rest;
    assert b[..8] == EncodeSize(n);
    assert b[8..] == rest;
  }

  /** A 4-byte int field in two's complement. */
  function EncodeInt(x: int32): (r: seq<byte>)
    ensures |r| == 4
  {
    ToLE(if x < 0 then x as int + 0x1_0000_0000 else x as int, 4)
  }

  function DecodeInt(b: seq<byte>): (r: Option<Decoded<int32>>)
    ensures r.Some? ==> |r.value.rest| == |b| - 4
    ensures r.None? <==> |b| < 4
  {
    if |b| < 4 then None
    else
      WidthLimits();
      var u := FromLE(b[..4]);
      Some(Decoded(if u >= 0x8000_0000 then (u - 0x1_0000_0000) as int32 else u as int32, b[4..]))
  }

  lemma IntRoundTrip(x: int32, rest: seq<byte>)
    ensures DecodeInt(EncodeInt(x) + rest) == Some(Decoded(x, rest))
  {
    WidthLimits();
    FromLEOfToLE(if x < 0 then x as int + 0x1_0000_0000 else x as int, 4);
    var b := EncodeInt(x) + rest;
    assert b[..4] == EncodeInt(x);
    assert b[4..] == rest;
  }

  /** The raw bytes of a string. */
  function StrBytes(s: Str): (b: seq<byte>)
    ensures |b| == |s|
    ensures forall i :: 0 <= i < |s| ==> b[i] as int == s[i] as int
  {
    seq(|s|, i requires 0 <= i < |s| => s[i] as int as byte)
  }

  /** The string a run of bytes spells. */
  function BytesStr(b: seq<byte>): (s: Str)
    ensures |s| == |b|
    ensures forall i :: 0 <= i < |b| ==> s[i] as int == b[i] as int
  {
    seq(|b|, i requires 0 <= i < |b| => (b[i] as int) as char)
  }

  /** A length, then the bytes (CRT.cpp:496-498 and the like). */
  function EncodeStr(s: Str): seq<byte> {
    EncodeSize(|s|) + StrBytes(s)
  }

  /** Reads a length and then that many bytes, if there are that many. */
  function DecodeStr(b: seq<byte>): (r: Option<Decoded<Str>>)
    ensures r.Some? ==> |r.value.rest| < |b|
  {
    match DecodeSize(b)
    case None => None
    case Some(d) =>
      if |d.rest| < d.value then None
      else Some(Decoded(BytesStr(d.rest[..d.value]), d.rest[d.value..]))
  }

  predicate EncodableStr(s: Str) {
    |s| < SIZE_LIMIT
  }

  lemma StrRoundTrip(s: Str, rest: seq<byte>)
    requires EncodableStr(s)
    ensures DecodeStr(EncodeStr(s) + rest) == Some(Decoded(s, rest))
  {
    ConcatAssociative(EncodeSize(|s|), StrBytes(s), rest);
    SizeRoundTrip(|s|, StrBytes(s) + rest);
    assert (StrBytes(s) + rest)[..|s|] == StrBytes(s);
    assert (StrBytes(s) + rest)[|s|..] == rest;
    assert BytesStr(StrBytes(s)) == s;
  }

  /** A counted list: the items one after the other (the count is written
      by the caller). */
  function EncodeList<T>(xs: seq<T>, item: T -> seq<byte>): seq<byte> {
    if xs == [] then [] else item(xs[0]) + EncodeList(xs[1..], item)
  }

  /** Reads n items, failing when one of them cannot be read. */
  function DecodeList<T>(b: seq<byte>, n: nat, item: seq<byte> -> Option<Decoded<T>>): (r: Option<Decoded<seq<T>>>)
    ensures r.Some? ==> |r.value.value| == n
    decreases n
  {
    if n == 0 then Some(Decoded([], b))
    else match item(b)
      case None => None
      case Some(x) =>
        match DecodeList(x.rest, n - 1, item)
        case None => None
        case Some(xs) => Some(Decoded([x.value] + xs.value, xs.rest))
  }

  /** Items already decoded, put in front of what a decoder returns. */
  function Prepend<T>(xs: seq<T>, d: Option<Decoded<seq<T>>>): (r: Option<Decoded<seq<T>>>)
    ensures r.Some? <==> d.Some?
    ensures r.Some? ==> |r.value.value| == |xs| + |d.value.value| && r.value.value[..|xs|] == xs
    ensures r.Some? ==> r.value.rest == d.value.rest
  {
    if d.None? then None else Some(Decoded(xs + d.value.value, d.value.rest))
  }

  /** Putting items in front in two goes is putting them in front at once. */
  lemma PrependTwice<T>(xs: seq<T>, x: T, d: Option<Decoded<seq<T>>>)
    ensures Prepend(xs, Prepend([x], d)) == Prepend(xs + [x], d)
  {
    if d.Some? {
      assert xs + ([x] + d.value.value) == (xs + [x]) + d.value.value;
    }
  }

  lemma EncodeListAppend<T>(xs: seq<T>, x: T, item: T -> seq<byte>)
    ensures EncodeList(xs + [x], item) == EncodeList(xs, item) + item(x)
  {
    if xs != [] {
      assert (xs + [x])[1..] == xs[1..] + [x];
      EncodeListAppend(xs[1..], x, item);
    }
  }

  /** Items that each decode back from their encoding make a list that
      decodes back from its encoding. */
  lemma {:induction false} ListRoundTrip<T>(xs: seq<T>, rest: seq<byte>, encode: T -> seq<byte>,
                                            decode: seq<byte> -> Option<Decoded<T>>, encodable: T -> bool)
    requires forall x, r :: encodable(x) ==> decode(encode(x) + r) == Some(Decoded(x, r))
    requires forall i :: 0 <= i < |xs| ==> encodable(xs[i])
    ensures DecodeList(EncodeList(xs, encode) + rest, |xs|, decode) == Some(Decoded(xs, rest))
  {
    if xs != [] {
      var tail := EncodeList(xs[1..], encode) + rest;
      ConcatAssociative(encode(xs[0]), EncodeList(xs[1..], encode), rest);
      assert decode(encode(xs[0]) + tail) == Some(Decoded(xs[0], tail));
      ListRoundTrip(xs[1..], rest, encode, decode, encodable);
      assert DecodeList(tail, |xs| - 1, decode) == Some(Decoded(xs[1..], rest));
      assert [xs[0]] + xs[1..] == xs;
      assert DecodeList(encode(xs[0]) + tail, |xs|, decode) == Some(Decoded(xs, rest));
    } else {
      assert EncodeList(xs, encode) + rest == rest;
    }
  }

  /** A column: its name, then its type (CRT.cpp:507-517). */
  function EncodeColumn(c: Column): seq<byte> {
    EncodeStr(c.name) + EncodeStr(c.typ)
  }

  function DecodeColumn(b: seq<byte>): Option<Decoded<Column>> {
    match DecodeStr(b)
    case None => None
    case Some(n) =>
      match DecodeStr(n.rest)
      case None => None
      case Some(t) => Some(Decoded(Column(n.value, t.value), t.rest))
  }

  predicate EncodableColumn(c: Column) {
    EncodableStr(c.name) && EncodableStr(c.typ)
  }

  lemma ColumnRoundTrip(c: Column, rest: seq<byte>)
    requires EncodableColumn(c)
    ensures DecodeColumn(EncodeColumn(c) + rest) == Some(Decoded(c, rest))
  {
    ConcatAssociative(EncodeStr(c.name), EncodeStr(c.typ), rest);
    StrRoundTrip(c.name, EncodeStr(c.typ) + rest);
    StrRoundTrip(c.typ, rest);
  }

  /** A row: its id, the value count and the values (CRT.cpp:523-536). */
  function EncodeRow(r: Row): seq<byte> {
    EncodeInt(r.id) + (EncodeSize(|r.values|) + EncodeList(r.values, EncodeStr))
  }

  function DecodeRow(b: seq<byte>): Option<Decoded<Row>> {
    match DecodeInt(b)
    case None => None
    case Some(id) =>
      match DecodeSize(id.rest)
      case None => None
      case Some(n) =>
        match DecodeList(n.rest, n.value, DecodeStr)
        case None => None
        case Some(vs) => Some(Decoded(Row(vs.value, id.value), vs.rest))
  }

  predicate EncodableRow(r: Row) {
    |r.values| < SIZE_LIMIT && forall i :: 0 <= i < |r.values| ==> EncodableStr(r.values[i])
  }

  lemma RowRoundTrip(r: Row, rest: seq<byte>)
    requires EncodableRow(r)
    ensures DecodeRow(EncodeRow(r) + rest) == Some(Decoded(r, rest))
  {
    var vs := EncodeList(r.values, EncodeStr) + rest;
    ConcatAssociative(EncodeInt(r.id), EncodeSize(|r.values|) + EncodeList(r.values, EncodeStr), rest);
    ConcatAssociative(EncodeSize(|r.values|), EncodeList(r.values, EncodeStr), rest);
    IntRoundTrip(r.id, EncodeSize(|r.values|) + vs);
    SizeRoundTrip(|r.values|, vs);
    forall s: Str, t: seq<byte> | EncodableStr(s)
      ensures DecodeStr(EncodeStr(s) + t) == Some(Decoded(s, t))
    {
      StrRoundTrip(s, t);
    }
    ListRoundTrip(r.values, rest, EncodeStr, DecodeStr, EncodableStr);
  }

  /** A table: name, next_id, the columns, the rows (CRT.cpp:492-536). */
  function EncodeTable(t: Table): seq<byte> {
    EncodeStr(t.name) + (EncodeInt(t.nextId) +
    (EncodeSize(|t.columns|) + (EncodeList(t.columns, EncodeColumn) +
    (EncodeSize(|t.rows|) + EncodeList(t.rows, EncodeRow)))))
  }

  /** One table as the read loops of CRT.cpp:579-638 fill it. */
  function DecodeTable(b: seq<byte>): Option<Decoded<Table>> {
    match DecodeStr(b)
    case None => None
    case Some(name) =>
      match DecodeInt(name.rest)
      case None => None
      case Some(next) =>
        match DecodeSize(next.rest)
        case None => None
        case Some(nc) =>
          match DecodeList(nc.rest, nc.value, DecodeColumn)
          case None => None
          case Some(cols) =>
            match DecodeSize(cols.rest)
            case None => None
            case Some(nr) =>
              match DecodeList(nr.rest, nr.value, DecodeRow)
              case None => None
              case Some(rows) =>
                Some(Decoded(Table(name.value, cols.value, rows.value, next.value), rows.rest))
  }

  predicate EncodableTable(t: Table) {
    EncodableStr(t.name) &&
    |t.columns| < SIZE_LIMIT && (forall i :: 0 <= i < |t.columns| ==> EncodableColumn(t.columns[i])) &&
    |t.rows| < SIZE_LIMIT && (forall i :: 0 <= i < |t.rows| ==> EncodableRow(t.rows[i]))
  }

  lemma TableRoundTrip(t: Table, rest: seq<byte>)
    requires EncodableTable(t)
    ensures DecodeTable(EncodeTable(t) + rest) == Some(Decoded(t, rest))
  {
    var p5 := EncodeSize(|t.rows|) + EncodeList(t.rows, EncodeRow);
    var p4 := EncodeList(t.columns, EncodeColumn) + p5;
    var p3 := EncodeSize(|t.columns|) + p4;
    var p2 := EncodeInt(t.nextId) + p3;
    ConcatAssociative(EncodeStr(t.name), p2, rest);
    ConcatAssociative(EncodeInt(t.nextId), p3, rest);
    ConcatAssociative(EncodeSize(|t.columns|), p4, rest);
    ConcatAssociative(EncodeList(t.columns, EncodeColumn), p5, rest);
    ConcatAssociative(EncodeSize(|t.rows|), EncodeList(t.rows, EncodeRow), rest);
    var rowsPart := EncodeList(t.rows, EncodeRow) + rest;
    var colsPart := EncodeList(t.columns, EncodeColumn) + (EncodeSize(|t.rows|) + rowsPart);
    StrRoundTrip(t.name, EncodeInt(t.nextId) + (EncodeSize(|t.columns|) + colsPart));
    IntRoundTrip(t.nextId, EncodeSize(|t.columns|) + colsPart);
    SizeRoundTrip(|t.columns|, colsPart);
    forall c: Column, r: seq<byte> | EncodableColumn(c)
      ensures DecodeColumn(EncodeColumn(c) + r) == Some(Decoded(c, r))
    {
      ColumnRoundTrip(c, r);
    }
    ListRoundTrip(t.columns, EncodeSize(|t.rows|) + rowsPart, EncodeColumn, DecodeColumn, EncodableColumn);
    SizeRoundTrip(|t.rows|, rowsPart);
    forall row: Row, r: seq<byte> | EncodableRow(row)
      ensures DecodeRow(EncodeRow(row) + r) == Some(Decoded(row, r))
    {
      RowRoundTrip(row, r);
    }
    ListRoundTrip(t.rows, rest, EncodeRow, DecodeRow, EncodableRow);
  }

  /** `database[table.name] = table` for each table in turn: a later table
      with the same name replaces an earlier one. */
  function LoadInto(acc: Store, ts: seq<Table>): (s: Store)
    ensures KeysMatchNames(acc) ==> KeysMatchNames(s)
    decreases |ts|
  {
    if ts == [] then acc else LoadInto(acc[ts[0].name := ts[0]], ts[1..])
  }

  lemma {:induction false} LoadIntoAppend(acc: Store, ts: seq<Table>, t: Table)
    ensures LoadInto(acc, ts + [t]) == LoadInto(acc, ts)[t.name := t]
    decreases |ts|
  {
    if ts != [] {
      assert (ts + [t])[1..] == ts[1..] + [t];
      LoadIntoAppend(acc[ts[0].name := ts[0]], ts[1..], t);
    } else {
      assert ts + [t] == [t];
    }
  }

  /** An order in which a walk over the map can meet the store's keys:
      each key exactly once. */
  ghost predicate Walk(keys: seq<Str>, s: Store) {
    |keys| == |s| &&
    (forall i, j :: 0 <= i < j < |keys| ==> keys[i] != keys[j]) &&
    (forall k :: k in s <==> k in keys)
  }

  /** The tables under the keys, in the keys' order. */
  function TablesOf(s: Store, keys: seq<Str>): seq<Table>
    requires forall k :: k in keys ==> k in s
  {
    seq(|keys|, i requires 0 <= i < |keys| => s[keys[i]])
  }

  /** Loading tables that each come from a store, under their keys, adds
      exactly those keys with the store's tables and leaves the rest of
      the accumulator alone. */
  lemma {:induction false} LoadIntoKeys(acc: Store, order: seq<Table>, keys: seq<Str>, s: Store)
    requires KeysMatchNames(s)
    requires |order| == |keys|
    requires forall i :: 0 <= i < |keys| ==> keys[i] in s && order[i] == s[keys[i]]
    ensures forall k :: k in LoadInto(acc, order) <==> k in acc || k in keys
    ensures forall k :: k in keys ==> LoadInto(acc, order)[k] == s[k]
    ensures forall k :: k in acc && k !in keys ==> LoadInto(acc, order)[k] == acc[k]
    decreases |order|
  {
    if order != [] {
      var n := |order| - 1;
      LoadIntoKeys(acc, order[..n], keys[..n], s);
      assert order == order[..n] + [order[n]];
      LoadIntoAppend(acc, order[..n], order[n]);
      assert order[n].name == keys[n];
      assert keys == keys[..n] + [keys[n]];
    }
  }

  /** Loading the tables of a store in the order of a walk over it, when
      each sits under its own name, gives the store back. */
  lemma LoadWalk(keys: seq<Str>, s: Store)
    requires Walk(keys, s) && KeysMatchNames(s)
    ensures LoadInto(map[], TablesOf(s, keys)) == s
  {
    LoadIntoKeys(map[], TablesOf(s, keys), keys, s);
  }

  /** The whole file for the tables in the order they are written: the
      count, then each table (CRT.cpp:487-537). */
  function EncodeSnapshot(ts: seq<Table>): seq<byte> {
    EncodeSize(|ts|) + EncodeList(ts, EncodeTable)
  }

  /** The whole file read back (CRT.cpp:570-640): the count, that many
      tables each stored under its name in turn, and the count the file
      announces; None when the bytes run out before the announced
      content. */
  function DecodeSnapshot(b: seq<byte>): (r: Option<(Store, nat)>)
    ensures r.Some? ==> KeysMatchNames(r.value.0)
  {
    var n := DecodeSize(b);
    if n.None? then None
    else
      var ts := DecodeList(n.value.rest, n.value.value, DecodeTable);
      if ts.None? then None else Some((LoadInto(map[], ts.value.value), n.value.value))
  }

  lemma SnapshotCount(ts: seq<Table>, rest: seq<byte>)
    requires |ts| < SIZE_LIMIT
    ensures DecodeSize(EncodeSnapshot(ts) + rest) == Some(Decoded(|ts| as nat, EncodeList(ts, EncodeTable) + rest))
  {
    ConcatAssociative(EncodeSize(|ts|), EncodeList(ts, EncodeTable), rest);
    SizeRoundTrip(|ts|, EncodeList(ts, EncodeTable) + rest);
  }

  /** Reading back what was written gives the tables written, each under its
      name, whatever follows the snapshot in the file. */
  lemma SnapshotRoundTrip(ts: seq<Table>, rest: seq<byte>)
    requires |ts| < SIZE_LIMIT
    requires forall i :: 0 <= i < |ts| ==> EncodableTable(ts[i])
    ensures DecodeSnapshot(EncodeSnapshot(ts) + rest) == Some((LoadInto(map[], ts), |ts|))
  {
    SnapshotCount(ts, rest);
    forall t: Table, r: seq<byte> | EncodableTable(t)
      ensures DecodeTable(EncodeTable(t) + r) == Some(Decoded(t, r))
    {
      TableRoundTrip(t, r);
    }
    ListRoundTrip(ts, rest, EncodeTable, DecodeTable, EncodableTable);
  }

  predicate EncodableStore(s: Store) {
    |s| < SIZE_LIMIT && forall k :: k in s ==> EncodableTable(s[k])
  }
}
