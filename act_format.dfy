/**
 * The layout of an action (`.act`) file as the version 6 to version 5 converter
 * walks it: a 32-byte header, a u32 format version, a u32 count of actions,
 * and the actions, each holding a u32-counted list of signals. Every count,
 * length and integer is little-endian.
 *
 * Some fields exist only from a given format version on (`version >= 2` ...
 * `version >= 6`); parsing at a version reads exactly the fields that version
 * has and gives the others the value zero, and encoding at a version writes
 * exactly those fields. Parsing and encoding at the same version are inverse
 * to each other in both directions; the converter parses at the file's own
 * version and encodes at version 5.
 */
module ActFormat {
  import opened Wrappers
  import opened Bytes
  import opened Streams

  /** A value that fits an unsigned 32-bit field. */
  type u32 = x: nat | x < U32_LIMIT

  const HEADER_SIZE: nat := 32
  /** `read_multiple_u32(.., 4)` at the head of a signal: four words. */
  const SIGNAL_HEAD_SIZE: nat := 16
  /** The fixed `m_p_data` block of a signal. */
  const SIGNAL_DATA_SIZE: nat := 256

  /** A u32 field (`read_u32::<LittleEndian>`), written back as the same four bytes. */
  function TakeWord(s: seq<byte>): (r: Option<Read<u32>>)
    ensures r.Some? <==> 4 <= |s|
    ensures r.Some? ==> EncodeU32(r.value.value) + r.value.rest == s
  {
    match TakeU32(s)
    case None => None
    case Some(x) =>
      U32Canonical(s[..4]);
      assert s == s[..4] + s[4..];
      Some(Read(x.value as u32, x.rest))
  }

  lemma TakeWordEncoded(x: u32, rest: seq<byte>)
    ensures TakeWord(EncodeU32(x) + rest) == Some(Read(x, rest))
  {
    TakeU32Encoded(x, rest);
  }

  // ---------------------------------------------------------------------------
  // Sized byte strings: a u32 length, then that many bytes (`read_string`, and
  // every entry of a variable-size table)

  predicate SizedFits(t: seq<byte>)
  {
    |t| < U32_LIMIT
  }

  function EncodeSized(t: seq<byte>): (r: seq<byte>)
    requires SizedFits(t)
    ensures |r| == 4 + |t| && r[4..] == t
  {
    EncodeU32(|t|) + t
  }

  /** Parsing consumes exactly the encoding of what it returns. */
  function ParseSized(s: seq<byte>): (r: Option<Read<seq<byte>>>)
    ensures r.Some? ==> SizedFits(r.value.value) && EncodeSized(r.value.value) + r.value.rest == s
  {
    match TakeWord(s)
    case None => None
    case Some(len) =>
      match TakeBytes(len.rest, len.value)
      case None => None
      case Some(t) => Some(Read(t.value, t.rest))
  }

  lemma ParseSizedEncoded(t: seq<byte>, rest: seq<byte>)
    requires SizedFits(t)
    ensures ParseSized(EncodeSized(t) + rest) == Some(Read(t, rest))
  {
    TakeWordEncoded(|t|, t + rest);
    assert EncodeSized(t) + rest == EncodeU32(|t|) + (t + rest);
    TakeBytesPrefix(t, rest);
  }

  // ---------------------------------------------------------------------------
  // Fixed-width tables (`read_table`): a u32 count, `count` words of ids, then
  // for each id `width` four-byte values

  datatype Table = Table(ids: seq<byte>, rows: seq<seq<byte>>)

  predicate TableFits(t: Table, width: nat)
  {
    && |t.rows| < U32_LIMIT
    && |t.ids| == 4 * |t.rows|
    && forall i :: 0 <= i < |t.rows| ==> |t.rows[i]| == 4 * width
  }

  function EncodeTable(t: Table): seq<byte>
    requires |t.rows| < U32_LIMIT
  {
    EncodeU32(|t.rows|) + t.ids + Flatten(t.rows)
  }

  /** The first `k` rows of `width` values. */
  function ParseRows(s: seq<byte>, k: nat, width: nat): (r: Option<Read<seq<seq<byte>>>>)
    ensures r.Some? ==> |r.value.value| == k && Flatten(r.value.value) + r.value.rest == s
    ensures r.Some? ==> forall i :: 0 <= i < k ==> |r.value.value[i]| == 4 * width
    decreases k
  {
    if k == 0 then Some(Read([], s))
    else
      match ParseRows(s, k - 1, width)
      case None => None
      case Some(p) =>
        match TakeBytes(p.rest, 4 * width)
        case None => None
        case Some(row) =>
          FlattenSnoc(p.value, row.value);
          Some(Read(p.value + [row.value], row.rest))
  }

  /** Once a row is missing, no longer run of rows can be read. */
  lemma {:induction false} ParseRowsNone(s: seq<byte>, k: nat, n: nat, width: nat)
    requires k <= n && ParseRows(s, k, width).None?
    ensures ParseRows(s, n, width).None?
    decreases n
  {
    if k < n {
      ParseRowsNone(s, k, n - 1, width);
    }
  }

  lemma {:induction false} ParseRowsEncoded(rows: seq<seq<byte>>, rest: seq<byte>, width: nat)
    requires forall i :: 0 <= i < |rows| ==> |rows[i]| == 4 * width
    ensures ParseRows(Flatten(rows) + rest, |rows|, width) == Some(Read(rows, rest))
    decreases |rows|
  {
    if rows != [] {
      var init := rows[..|rows| - 1];
      var last := rows[|rows| - 1];
      assert rows == init + [last];
      FlattenSnoc(init, last);
      assert Flatten(rows) + rest == Flatten(init) + (last + rest);
      ParseRowsEncoded(init, last + rest, width);
      TakeBytesPrefix(last, rest);
    } else {
      assert Flatten(rows) + rest == rest;
    }
  }

  /** The ids and rows of a table whose count `n` has been read. */
  function ParseTableBody(s: seq<byte>, n: nat, width: nat): (r: Option<Read<Table>>)
    ensures r.Some? ==> |r.value.value.rows| == n && |r.value.value.ids| == 4 * n
    ensures r.Some? ==> forall i :: 0 <= i < n ==> |r.value.value.rows[i]| == 4 * width
    ensures r.Some? ==> r.value.value.ids + Flatten(r.value.value.rows) + r.value.rest == s
  {
    match TakeBytes(s, 4 * n)
    case None => None
    case Some(ids) =>
      match ParseRows(ids.rest, n, width)
      case None => None
      case Some(rows) => Some(Read(Table(ids.value, rows.value), rows.rest))
  }

  function ParseTable(s: seq<byte>, width: nat): (r: Option<Read<Table>>)
    ensures r.Some? ==> TableFits(r.value.value, width) && EncodeTable(r.value.value) + r.value.rest == s
  {
    match TakeWord(s)
    case None => None
    case Some(n) =>
      if n.value > 0 then
        match ParseTableBody(n.rest, n.value, width)
        case None => None
        case Some(b) =>
          TableAssembled(b.value, b.rest, n.rest, s);
          Some(b)
      else Some(Read(Table([], []), n.rest))
  }

  /** A count, then ids and rows that end where `rest` begins, make up a table's bytes. */
  lemma TableAssembled(t: Table, rest: seq<byte>, body: seq<byte>, s: seq<byte>)
    requires |t.rows| < U32_LIMIT
    requires s == EncodeU32(|t.rows|) + body && body == t.ids + Flatten(t.rows) + rest
    ensures EncodeTable(t) + rest == s
  {
    hide EncodeU32, Flatten;
  }

  lemma ParseTableEncoded(t: Table, rest: seq<byte>, width: nat)
    requires TableFits(t, width)
    ensures ParseTable(EncodeTable(t) + rest, width) == Some(Read(t, rest))
  {
    var body := t.ids + Flatten(t.rows) + rest;
    assert EncodeTable(t) + rest == EncodeU32(|t.rows|) + body;
    TakeWordEncoded(|t.rows|, body);
    if |t.rows| > 0 {
      TakeBytesPrefix(t.ids, Flatten(t.rows) + rest);
      assert body == t.ids + (Flatten(t.rows) + rest);
      ParseRowsEncoded(t.rows, rest, width);
    }
  }

  // ---------------------------------------------------------------------------
  // Variable-size tables (`read_variable_size_table`): a u32 count, `count`
  // words of ids, then `count` sized byte strings

  datatype Lookup = Lookup(ids: seq<byte>, entries: seq<seq<byte>>)

  predicate EntriesFit(es: seq<seq<byte>>)
  {
    forall i :: 0 <= i < |es| ==> SizedFits(es[i])
  }

  predicate LookupFits(l: Lookup)
  {
    |l.entries| < U32_LIMIT && |l.ids| == 4 * |l.entries| && EntriesFit(l.entries)
  }

  function EncodeEntries(es: seq<seq<byte>>): seq<byte>
    requires EntriesFit(es)
    decreases |es|
  {
    if es == [] then [] else EncodeEntries(es[..|es| - 1]) + EncodeSized(es[|es| - 1])
  }

  lemma EncodeEntriesSnoc(es: seq<seq<byte>>, e: seq<byte>)
    requires EntriesFit(es) && SizedFits(e)
    ensures EntriesFit(es + [e]) && EncodeEntries(es + [e]) == EncodeEntries(es) + EncodeSized(e)
  {
    assert (es + [e])[..|es|] == es;
  }

  function EncodeLookup(l: Lookup): seq<byte>
    requires LookupFits(l)
  {
    EncodeU32(|l.entries|) + l.ids + EncodeEntries(l.entries)
  }

  /** The first `k` entries. */
  function ParseEntries(s: seq<byte>, k: nat): (r: Option<Read<seq<seq<byte>>>>)
    ensures r.Some? ==> |r.value.value| == k && EntriesFit(r.value.value)
    ensures r.Some? ==> EncodeEntries(r.value.value) + r.value.rest == s
    decreases k
  {
    if k == 0 then Some(Read([], s))
    else
      match ParseEntries(s, k - 1)
      case None => None
      case Some(p) =>
        match ParseSized(p.rest)
        case None => None
        case Some(e) =>
          EncodeEntriesSnoc(p.value, e.value);
          Some(Read(p.value + [e.value], e.rest))
  }

  lemma {:induction false} ParseEntriesNone(s: seq<byte>, k: nat, n: nat)
    requires k <= n && ParseEntries(s, k).None?
    ensures ParseEntries(s, n).None?
    decreases n
  {
    if k < n {
      ParseEntriesNone(s, k, n - 1);
    }
  }

  lemma {:induction false} ParseEntriesEncoded(es: seq<seq<byte>>, rest: seq<byte>)
    requires EntriesFit(es)
    ensures ParseEntries(EncodeEntries(es) + rest, |es|) == Some(Read(es, rest))
    decreases |es|
  {
    if es != [] {
      var init := es[..|es| - 1];
      var last := es[|es| - 1];
      assert es == init + [last];
      EncodeEntriesSnoc(init, last);
      assert EncodeEntries(es) + rest == EncodeEntries(init) + (EncodeSized(last) + rest);
      ParseEntriesEncoded(init, EncodeSized(last) + rest);
      ParseSizedEncoded(last, rest);
    } else {
      assert EncodeEntries(es) + rest == rest;
    }
  }

  function ParseLookup(s: seq<byte>): (r: Option<Read<Lookup>>)
  {
    match TakeWord(s)
    case None => None
    case Some(n) =>
      if n.value > 0 then
        match TakeBytes(n.rest, 4 * n.value)
        case None => None
        case Some(ids) =>
          match ParseEntries(ids.rest, n.value)
          case None => None
          case Some(es) => Some(Read(Lookup(ids.value, es.value), es.rest))
      else
        Some(Read(Lookup([], []), n.rest))
  }

  lemma ParseLookupConsumes(s: seq<byte>)
    requires ParseLookup(s).Some?
    ensures var r := ParseLookup(s).value;
      LookupFits(r.value) && EncodeLookup(r.value) + r.rest == s
  {
    hide TakeWord, TakeBytes, ParseEntries, EncodeU32, ParseSized, EncodeSized;
    var n := TakeWord(s).value;
    if n.value > 0 {
      var ids := TakeBytes(n.rest, 4 * n.value).value;
      var es := ParseEntries(ids.rest, n.value).value;
      assert s == EncodeU32(n.value) + ids.value + EncodeEntries(es.value) + es.rest;
    }
  }

  lemma ParseLookupEncoded(l: Lookup, rest: seq<byte>)
    requires LookupFits(l)
    ensures ParseLookup(EncodeLookup(l) + rest) == Some(Read(l, rest))
  {
    var body := l.ids + EncodeEntries(l.entries) + rest;
    assert EncodeLookup(l) + rest == EncodeU32(|l.entries|) + body;
    TakeWordEncoded(|l.entries|, body);
    if |l.entries| > 0 {
      TakeBytesPrefix(l.ids, EncodeEntries(l.entries) + rest);
      assert body == l.ids + (EncodeEntries(l.entries) + rest);
      ParseEntriesEncoded(l.entries, rest);
    }
  }

  // ---------------------------------------------------------------------------
  // Signals

  /**
   * A signal: four head words, a 256-byte data block, tables of two, three
   * and four values per id, a variable-size table, and from version 6 on one
   * more byte (`_act6_signal`).
   */
  datatype Signal = Signal(head: seq<byte>, data: seq<byte>, pairs: Table, triples: Table,
                           quads: Table, lookup: Lookup, act6: byte)

  predicate SignalFits(sg: Signal)
  {
    && |sg.head| == SIGNAL_HEAD_SIZE && |sg.data| == SIGNAL_DATA_SIZE
    && TableFits(sg.pairs, 2) && TableFits(sg.triples, 3) && TableFits(sg.quads, 4)
    && LookupFits(sg.lookup)
  }

  /** A field a version does not have holds zero, as parsing at that version leaves it. */
  predicate SignalAt(sg: Signal, version: nat)
  {
    SignalFits(sg) && (version < 6 ==> sg.act6 == 0)
  }

  function EncodeSignal(sg: Signal, version: nat): (r: seq<byte>)
    requires SignalFits(sg)
  {
    sg.head + sg.data + EncodeTable(sg.pairs) + EncodeTable(sg.triples) + EncodeTable(sg.quads)
    + EncodeLookup(sg.lookup) + EncodeByteSince(sg.act6, version >= 6)
  }

  function ParseSignal(s: seq<byte>, version: nat): (r: Option<Read<Signal>>)
  {
    match TakeBytes(s, SIGNAL_HEAD_SIZE)
    case None => None
    case Some(head) =>
      match TakeBytes(head.rest, SIGNAL_DATA_SIZE)
      case None => None
      case Some(data) =>
        match ParseTable(data.rest, 2)
        case None => None
        case Some(pairs) =>
          match ParseTable(pairs.rest, 3)
          case None => None
          case Some(triples) =>
            match ParseTable(triples.rest, 4)
            case None => None
            case Some(quads) =>
              match ParseLookup(quads.rest)
              case None => None
              case Some(lookup) =>
                match ParseByteSince(lookup.rest, version >= 6)
                case None => None
                case Some(act6) =>
                  Some(Read(Signal(head.value, data.value, pairs.value, triples.value, quads.value,
                                   lookup.value, act6.value), act6.rest))
  }

  /** Parsing consumes exactly the encoding, at the same version, of what it returns. */
  lemma ParseSignalConsumes(s: seq<byte>, version: nat)
    requires ParseSignal(s, version).Some?
    ensures var r := ParseSignal(s, version).value;
      SignalAt(r.value, version) && EncodeSignal(r.value, version) + r.rest == s
  {
    hide TakeBytes, ParseTable, ParseLookup, ParseByteSince, EncodeTable, EncodeLookup, EncodeByteSince;
    var head := TakeBytes(s, SIGNAL_HEAD_SIZE).value;
    var data := TakeBytes(head.rest, SIGNAL_DATA_SIZE).value;
    var pairs := ParseTable(data.rest, 2).value;
    var triples := ParseTable(pairs.rest, 3).value;
    var quads := ParseTable(triples.rest, 4).value;
    var lookup := ParseLookup(quads.rest).value;
    ParseLookupConsumes(quads.rest);
    var act6 := ParseByteSince(lookup.rest, version >= 6).value;
    assert s == head.value + data.value + EncodeTable(pairs.value) + EncodeTable(triples.value)
      + EncodeTable(quads.value) + EncodeLookup(lookup.value) + EncodeByteSince(act6.value, version >= 6) + act6.rest;
  }

  lemma ParseSignalEncoded(sg: Signal, rest: seq<byte>, version: nat)
    requires SignalAt(sg, version)
    ensures ParseSignal(EncodeSignal(sg, version) + rest, version) == Some(Read(sg, rest))
  {
    hide TakeBytes, ParseTable, ParseLookup, ParseByteSince, EncodeTable, EncodeLookup, EncodeByteSince;
    var r5 := EncodeByteSince(sg.act6, version >= 6) + rest;
    var r4 := EncodeLookup(sg.lookup) + r5;
    var r3 := EncodeTable(sg.quads) + r4;
    var r2 := EncodeTable(sg.triples) + r3;
    var r1 := EncodeTable(sg.pairs) + r2;
    var r0 := sg.data + r1;
    assert EncodeSignal(sg, version) + rest == sg.head + r0;
    TakeBytesPrefix(sg.head, r0);
    TakeBytesPrefix(sg.data, r1);
    ParseTableEncoded(sg.pairs, r2, 2);
    ParseTableEncoded(sg.triples, r3, 3);
    ParseTableEncoded(sg.quads, r4, 4);
    ParseLookupEncoded(sg.lookup, r5);
    ParseByteSinceEncoded(sg.act6, rest, version >= 6);
  }

  predicate SignalsFit(sgs: seq<Signal>)
  {
    forall i :: 0 <= i < |sgs| ==> SignalFits(sgs[i])
  }

  function EncodeSignals(sgs: seq<Signal>, version: nat): seq<byte>
    requires SignalsFit(sgs)
    decreases |sgs|
  {
    if sgs == [] then [] else EncodeSignals(sgs[..|sgs| - 1], version) + EncodeSignal(sgs[|sgs| - 1], version)
  }

  lemma EncodeSignalsSnoc(sgs: seq<Signal>, sg: Signal, version: nat)
    requires SignalsFit(sgs) && SignalFits(sg)
    ensures SignalsFit(sgs + [sg])
    ensures EncodeSignals(sgs + [sg], version) == EncodeSignals(sgs, version) + EncodeSignal(sg, version)
  {
    hide EncodeSignal;
    assert (sgs + [sg])[..|sgs|] == sgs;
  }

  /** The first `k` signals. */
  function ParseSignals(s: seq<byte>, k: nat, version: nat): (r: Option<Read<seq<Signal>>>)
    decreases k
  {
    if k == 0 then Some(Read([], s))
    else
      match ParseSignals(s, k - 1, version)
      case None => None
      case Some(p) =>
        match ParseSignal(p.rest, version)
        case None => None
        case Some(sg) => Some(Read(p.value + [sg.value], sg.rest))
  }

  lemma {:induction false} ParseSignalsConsumes(s: seq<byte>, k: nat, version: nat)
    requires ParseSignals(s, k, version).Some?
    ensures var r := ParseSignals(s, k, version).value;
      |r.value| == k && SignalsFit(r.value) && (forall i :: 0 <= i < k ==> SignalAt(r.value[i], version))
      && EncodeSignals(r.value, version) + r.rest == s
    decreases k
  {
    hide ParseSignal, EncodeSignal, SignalFits;
    if k > 0 {
      ParseSignalsConsumes(s, k - 1, version);
      var p := ParseSignals(s, k - 1, version).value;
      ParseSignalConsumes(p.rest, version);
      var sg := ParseSignal(p.rest, version).value;
      EncodeSignalsSnoc(p.value, sg.value, version);
      assert p.value + [sg.value] == ParseSignals(s, k, version).value.value;
    }
  }

  lemma {:induction false} ParseSignalsNone(s: seq<byte>, k: nat, n: nat, version: nat)
    requires k <= n && ParseSignals(s, k, version).None?
    ensures ParseSignals(s, n, version).None?
    decreases n
  {
    hide ParseSignal;
    if k < n {
      ParseSignalsNone(s, k, n - 1, version);
    }
  }

  /** No signals: nothing written, nothing read. */
  lemma NoSignalsEncoded(rest: seq<byte>, version: nat)
    ensures SignalsFit([]) && EncodeSignals([], version) == []
    ensures ParseSignals(rest, 0, version) == Some(Read([], rest))
  {
  }

  /** One more signal written after some that read back reads back as well. */
  lemma SignalsEncodedStep(init: seq<Signal>, last: Signal, rest: seq<byte>, version: nat)
    requires SignalsFit(init) && SignalAt(last, version)
    requires ParseSignals(EncodeSignals(init, version) + (EncodeSignal(last, version) + rest), |init|, version)
             == Some(Read(init, EncodeSignal(last, version) + rest))
    ensures SignalsFit(init + [last])
    ensures ParseSignals(EncodeSignals(init + [last], version) + rest, |init| + 1, version) == Some(Read(init + [last], rest))
  {
    hide ParseSignal, EncodeSignal, SignalFits;
    var tail := EncodeSignal(last, version) + rest;
    EncodeSignalsSnoc(init, last, version);
    var whole := EncodeSignals(init + [last], version) + rest;
    assert whole == EncodeSignals(init, version) + tail;
    ParseSignalEncoded(last, rest, version);
  }

  lemma {:induction false} ParseSignalsEncoded(sgs: seq<Signal>, rest: seq<byte>, version: nat)
    requires forall i :: 0 <= i < |sgs| ==> SignalAt(sgs[i], version)
    ensures SignalsFit(sgs)
    ensures ParseSignals(EncodeSignals(sgs, version) + rest, |sgs|, version) == Some(Read(sgs, rest))
    decreases |sgs|
  {
    hide ParseSignal, EncodeSignal, SignalFits, ParseSignals, EncodeSignals;
    if sgs == [] {
      NoSignalsEncoded(rest, version);
      assert EncodeSignals(sgs, version) + rest == rest;
    } else {
      var init := sgs[..|sgs| - 1];
      var last := sgs[|sgs| - 1];
      assert sgs == init + [last];
      forall i | 0 <= i < |init|
        ensures SignalAt(init[i], version)
      {
        assert init[i] == sgs[i];
      }
      ParseSignalsEncoded(init, EncodeSignal(last, version) + rest, version);
      SignalsEncodedStep(init, last, rest, version);
    }
  }

  // ---------------------------------------------------------------------------
  // Actions

  /** The fields versions 2 to 6 added to an action, zero where a version lacks them. */
  datatype Additions = Additions(unknownV2: u32, unknownV3: u32, unknownV4: byte, unknownV5: u32, unknownV6: byte)

  predicate AdditionsAt(x: Additions, version: nat)
  {
    && (version < 2 ==> x.unknownV2 == 0)
    && (version < 3 ==> x.unknownV3 == 0)
    && (version < 4 ==> x.unknownV4 == 0)
    && (version < 5 ==> x.unknownV5 == 0)
    && (version < 6 ==> x.unknownV6 == 0)
  }

  /** A u32 field that only versions from some number on have. */
  function EncodeSince(x: u32, present: bool): (r: seq<byte>)
    ensures |r| == if present then 4 else 0
  {
    if present then EncodeU32(x) else []
  }

  function ParseSince(s: seq<byte>, present: bool): (r: Option<Read<u32>>)
    ensures r.Some? ==> EncodeSince(r.value.value, present) + r.value.rest == s
    ensures !present ==> r == Some(Read(0, s))
  {
    if present then TakeWord(s) else Some(Read(0 as u32, s))
  }

  lemma ParseSinceEncoded(x: u32, rest: seq<byte>, present: bool)
    requires !present ==> x == 0
    ensures ParseSince(EncodeSince(x, present) + rest, present) == Some(Read(x, rest))
  {
    if present {
      TakeWordEncoded(x, rest);
    } else {
      assert EncodeSince(x, present) + rest == rest;
    }
  }

  /** A one-byte field that only versions from some number on have. */
  function EncodeByteSince(b: byte, present: bool): (r: seq<byte>)
    ensures |r| == if present then 1 else 0
  {
    if present then [b] else []
  }

  function ParseByteSince(s: seq<byte>, present: bool): (r: Option<Read<byte>>)
    ensures r.Some? ==> EncodeByteSince(r.value.value, present) + r.value.rest == s
    ensures !present ==> r == Some(Read(0, s))
  {
    if present then TakeU8(s) else Some(Read(0, s))
  }

  lemma ParseByteSinceEncoded(b: byte, rest: seq<byte>, present: bool)
    requires !present ==> b == 0
    ensures ParseByteSince(EncodeByteSince(b, present) + rest, present) == Some(Read(b, rest))
  {
    if present {
      assert ([b] + rest)[1..] == rest;
    } else {
      assert EncodeByteSince(b, present) + rest == rest;
    }
  }

  function EncodeAdditions(x: Additions, version: nat): seq<byte>
  {
    EncodeSince(x.unknownV2, version >= 2) + EncodeSince(x.unknownV3, version >= 3)
    + EncodeByteSince(x.unknownV4, version >= 4) + EncodeSince(x.unknownV5, version >= 5)
    + EncodeByteSince(x.unknownV6, version >= 6)
  }

  function ParseAdditions(s: seq<byte>, version: nat): (r: Option<Read<Additions>>)
    ensures r.Some? ==> AdditionsAt(r.value.value, version) && EncodeAdditions(r.value.value, version) + r.value.rest == s
  {
    match ParseSince(s, version >= 2)
    case None => None
    case Some(v2) =>
      match ParseSince(v2.rest, version >= 3)
      case None => None
      case Some(v3) =>
        match ParseByteSince(v3.rest, version >= 4)
        case None => None
        case Some(v4) =>
          match ParseSince(v4.rest, version >= 5)
          case None => None
          case Some(v5) =>
            match ParseByteSince(v5.rest, version >= 6)
            case None => None
            case Some(v6) =>
              AdditionsAssembled(
                EncodeSince(v2.value, version >= 2), EncodeSince(v3.value, version >= 3),
                EncodeByteSince(v4.value, version >= 4), EncodeSince(v5.value, version >= 5),
                EncodeByteSince(v6.value, version >= 6), v6.rest);
              Some(Read(Additions(v2.value, v3.value, v4.value, v5.value, v6.value), v6.rest))
  }

  /** The fields read one after the other, in the order they are written. */
  lemma AdditionsAssembled(a: seq<byte>, b: seq<byte>, c: seq<byte>, d: seq<byte>, e: seq<byte>, rest: seq<byte>)
    ensures a + (b + (c + (d + (e + rest)))) == a + b + c + d + e + rest
  {
  }

  lemma ParseAdditionsEncoded(x: Additions, rest: seq<byte>, version: nat)
    requires AdditionsAt(x, version)
    ensures ParseAdditions(EncodeAdditions(x, version) + rest, version) == Some(Read(x, rest))
  {
    hide ParseSince, ParseByteSince, EncodeSince, EncodeByteSince;
    var r4 := EncodeByteSince(x.unknownV6, version >= 6) + rest;
    var r3 := EncodeSince(x.unknownV5, version >= 5) + r4;
    var r2 := EncodeByteSince(x.unknownV4, version >= 4) + r3;
    var r1 := EncodeSince(x.unknownV3, version >= 3) + r2;
    assert EncodeAdditions(x, version) + rest == EncodeSince(x.unknownV2, version >= 2) + r1;
    ParseSinceEncoded(x.unknownV2, r1, version >= 2);
    ParseSinceEncoded(x.unknownV3, r2, version >= 3);
    ParseByteSinceEncoded(x.unknownV4, r3, version >= 4);
    ParseSinceEncoded(x.unknownV5, r4, version >= 5);
    ParseByteSinceEncoded(x.unknownV6, rest, version >= 6);
  }

  /**
   * An action: its name, the linked animation's name, its length, the next
   * action's name, the blend frame and the next action's frame, the fields
   * later versions added, and its signals.
   */
  datatype Action = Action(name: seq<byte>, linkAniName: seq<byte>, length: u32, nextActionName: seq<byte>,
                           blendFrame: u32, nextActionFrame: u32, additions: Additions, signals: seq<Signal>)

  predicate ActionFits(a: Action)
  {
    && SizedFits(a.name) && SizedFits(a.linkAniName) && SizedFits(a.nextActionName)
    && |a.signals| < U32_LIMIT && SignalsFit(a.signals)
  }

  predicate ActionAt(a: Action, version: nat)
  {
    && ActionFits(a) && AdditionsAt(a.additions, version)
    && forall i :: 0 <= i < |a.signals| ==> SignalAt(a.signals[i], version)
  }

  /** The fields of an action before its signal count. */
  function EncodeActionHead(a: Action, version: nat): seq<byte>
    requires ActionFits(a)
  {
    EncodeSized(a.name) + EncodeSized(a.linkAniName) + EncodeU32(a.length) + EncodeSized(a.nextActionName)
    + EncodeU32(a.blendFrame) + EncodeU32(a.nextActionFrame) + EncodeAdditions(a.additions, version)
  }

  function EncodeAction(a: Action, version: nat): seq<byte>
    requires ActionFits(a)
  {
    EncodeActionHead(a, version) + EncodeU32(|a.signals|) + EncodeSignals(a.signals, version)
  }

  /** The fields of an action before its signal count, with no signals yet. */
  function ParseActionHead(s: seq<byte>, version: nat): (r: Option<Read<Action>>)
  {
    match ParseSized(s)
    case None => None
    case Some(name) =>
      match ParseSized(name.rest)
      case None => None
      case Some(link) =>
        match TakeWord(link.rest)
        case None => None
        case Some(length) =>
          match ParseSized(length.rest)
          case None => None
          case Some(next) =>
            match TakeWord(next.rest)
            case None => None
            case Some(blend) =>
              match TakeWord(blend.rest)
              case None => None
              case Some(frame) =>
                match ParseAdditions(frame.rest, version)
                case None => None
                case Some(x) =>
                  Some(Read(Action(name.value, link.value, length.value, next.value, blend.value,
                                   frame.value, x.value, []), x.rest))
  }

  function ParseAction(s: seq<byte>, version: nat): (r: Option<Read<Action>>)
  {
    match ParseActionHead(s, version)
    case None => None
    case Some(head) =>
      match TakeWord(head.rest)
      case None => None
      case Some(count) =>
        match ParseSignals(count.rest, count.value, version)
        case None => None
        case Some(sgs) => Some(Read(head.value.(signals := sgs.value), sgs.rest))
  }

  lemma ParseActionHeadConsumes(s: seq<byte>, version: nat)
    requires ParseActionHead(s, version).Some?
    ensures var r := ParseActionHead(s, version).value;
      ActionAt(r.value, version) && r.value.signals == [] && EncodeActionHead(r.value, version) + r.rest == s
  {
    hide ParseSized, TakeWord, ParseAdditions, EncodeSized, EncodeU32, EncodeAdditions;
    var name := ParseSized(s).value;
    var link := ParseSized(name.rest).value;
    var length := TakeWord(link.rest).value;
    var next := ParseSized(length.rest).value;
    var blend := TakeWord(next.rest).value;
    var frame := TakeWord(blend.rest).value;
    var x := ParseAdditions(frame.rest, version).value;
    assert s == EncodeSized(name.value) + EncodeSized(link.value) + EncodeU32(length.value) + EncodeSized(next.value)
      + EncodeU32(blend.value) + EncodeU32(frame.value) + EncodeAdditions(x.value, version) + x.rest;
  }

  lemma ParseActionConsumes(s: seq<byte>, version: nat)
    requires ParseAction(s, version).Some?
    ensures var r := ParseAction(s, version).value;
      ActionAt(r.value, version) && EncodeAction(r.value, version) + r.rest == s
  {
    hide ParseActionHead, ParseSignals, TakeWord, EncodeSignals, EncodeU32, SignalAt, ActionAt, EncodeActionHead;
    ParseActionHeadConsumes(s, version);
    var head := ParseActionHead(s, version).value;
    var count := TakeWord(head.rest).value;
    ParseSignalsConsumes(count.rest, count.value, version);
    var sgs := ParseSignals(count.rest, count.value, version).value;
    WithSignals(head.value, sgs.value, version);
  }

  /** Giving a well-formed action well-formed signals keeps it well-formed and keeps its head. */
  lemma WithSignals(a: Action, sgs: seq<Signal>, version: nat)
    requires ActionAt(a, version) && |sgs| < U32_LIMIT && SignalsFit(sgs)
    requires forall i :: 0 <= i < |sgs| ==> SignalAt(sgs[i], version)
    ensures ActionAt(a.(signals := sgs), version)
    ensures EncodeActionHead(a.(signals := sgs), version) == EncodeActionHead(a, version)
  {
  }

  /** A well-formed action at a version is encodable. */
  lemma ActionAtFits(a: Action, version: nat)
    requires ActionAt(a, version)
    ensures ActionFits(a)
  {
  }

  lemma ParseActionHeadEncoded(a: Action, rest: seq<byte>, version: nat)
    requires ActionAt(a, version)
    ensures ParseActionHead(EncodeActionHead(a, version) + rest, version) == Some(Read(a.(signals := []), rest))
  {
    hide ParseSized, TakeWord, ParseAdditions, EncodeSized, EncodeU32, EncodeAdditions;
    var r5 := EncodeAdditions(a.additions, version) + rest;
    var r4 := EncodeU32(a.nextActionFrame) + r5;
    var r3 := EncodeU32(a.blendFrame) + r4;
    var r2 := EncodeSized(a.nextActionName) + r3;
    var r1 := EncodeU32(a.length) + r2;
    var r0 := EncodeSized(a.linkAniName) + r1;
    assert EncodeActionHead(a, version) + rest == EncodeSized(a.name) + r0;
    ParseSizedEncoded(a.name, r0);
    ParseSizedEncoded(a.linkAniName, r1);
    TakeWordEncoded(a.length, r2);
    ParseSizedEncoded(a.nextActionName, r3);
    TakeWordEncoded(a.blendFrame, r4);
    TakeWordEncoded(a.nextActionFrame, r5);
    ParseAdditionsEncoded(a.additions, rest, version);
  }

  lemma ParseActionEncoded(a: Action, rest: seq<byte>, version: nat)
    requires ActionAt(a, version)
    ensures ParseAction(EncodeAction(a, version) + rest, version) == Some(Read(a, rest))
  {
    hide ParseActionHead, ParseSignals, TakeWord, EncodeActionHead, EncodeSignals, EncodeU32, SignalAt;
    var body := EncodeSignals(a.signals, version) + rest;
    var tail := EncodeU32(|a.signals|) + body;
    assert EncodeAction(a, version) + rest == EncodeActionHead(a, version) + tail;
    ParseActionHeadEncoded(a, tail, version);
    TakeWordEncoded(|a.signals|, body);
    ParseSignalsEncoded(a.signals, rest, version);
  }

  predicate ActionsFit(acts: seq<Action>)
  {
    forall i :: 0 <= i < |acts| ==> ActionFits(acts[i])
  }

  function EncodeActions(acts: seq<Action>, version: nat): seq<byte>
    requires ActionsFit(acts)
    decreases |acts|
  {
    if acts == [] then [] else EncodeActions(acts[..|acts| - 1], version) + EncodeAction(acts[|acts| - 1], version)
  }

  lemma EncodeActionsSnoc(acts: seq<Action>, a: Action, version: nat)
    requires ActionsFit(acts) && ActionFits(a)
    ensures ActionsFit(acts + [a])
    ensures EncodeActions(acts + [a], version) == EncodeActions(acts, version) + EncodeAction(a, version)
  {
    hide EncodeAction;
    assert (acts + [a])[..|acts|] == acts;
  }

  /** The first `k` actions. */
  function ParseActions(s: seq<byte>, k: nat, version: nat): (r: Option<Read<seq<Action>>>)
    decreases k
  {
    if k == 0 then Some(Read([], s))
    else
      match ParseActions(s, k - 1, version)
      case None => None
      case Some(p) =>
        match ParseAction(p.rest, version)
        case None => None
        case Some(a) => Some(Read(p.value + [a.value], a.rest))
  }

  lemma {:induction false} ParseActionsConsumes(s: seq<byte>, k: nat, version: nat)
    requires ParseActions(s, k, version).Some?
    ensures var r := ParseActions(s, k, version).value;
      |r.value| == k && ActionsFit(r.value) && (forall i :: 0 <= i < k ==> ActionAt(r.value[i], version))
      && EncodeActions(r.value, version) + r.rest == s
    decreases k
  {
    hide ParseAction, EncodeAction, ActionFits;
    if k > 0 {
      ParseActionsConsumes(s, k - 1, version);
      var p := ParseActions(s, k - 1, version).value;
      ParseActionConsumes(p.rest, version);
      var a := ParseAction(p.rest, version).value;
      EncodeActionsSnoc(p.value, a.value, version);
      assert p.value + [a.value] == ParseActions(s, k, version).value.value;
    }
  }

  lemma {:induction false} ParseActionsNone(s: seq<byte>, k: nat, n: nat, version: nat)
    requires k <= n && ParseActions(s, k, version).None?
    ensures ParseActions(s, n, version).None?
    decreases n
  {
    hide ParseAction;
    if k < n {
      ParseActionsNone(s, k, n - 1, version);
    }
  }

  lemma {:induction false} ParseActionsEncoded(acts: seq<Action>, rest: seq<byte>, version: nat)
    requires forall i :: 0 <= i < |acts| ==> ActionAt(acts[i], version)
    ensures ActionsFit(acts)
    ensures ParseActions(EncodeActions(acts, version) + rest, |acts|, version) == Some(Read(acts, rest))
    decreases |acts|
  {
    hide ParseAction, EncodeAction, ActionFits, ActionAt;
    assert ActionsFit(acts) by {
      forall i | 0 <= i < |acts|
        ensures ActionFits(acts[i])
      {
        ActionAtFits(acts[i], version);
      }
    }
    if acts != [] {
      var init := acts[..|acts| - 1];
      var last := acts[|acts| - 1];
      assert acts == init + [last];
      assert forall i :: 0 <= i < |init| ==> init[i] == acts[i];
      ParseActionsEncoded(init, EncodeAction(last, version) + rest, version);
      EncodeActionsSnoc(init, last, version);
      var tail := EncodeAction(last, version) + rest;
      assert EncodeActions(acts, version) + rest == EncodeActions(init, version) + tail;
      ParseActionEncoded(last, rest, version);
    } else {
      assert EncodeActions(acts, version) + rest == rest;
    }
  }

  // ---------------------------------------------------------------------------
  // Whole files

  datatype ActFile = ActFile(header: seq<byte>, version: u32, actions: seq<Action>)

  predicate FileAt(f: ActFile)
  {
    && |f.header| == HEADER_SIZE && |f.actions| < U32_LIMIT
    && forall i :: 0 <= i < |f.actions| ==> ActionAt(f.actions[i], f.version)
  }

  function EncodeFile(f: ActFile): seq<byte>
    requires |f.actions| < U32_LIMIT && ActionsFit(f.actions)
  {
    f.header + EncodeU32(f.version) + EncodeU32(|f.actions|) + EncodeActions(f.actions, f.version)
  }

  function ParseFile(s: seq<byte>): (r: Option<Read<ActFile>>)
  {
    match TakeBytes(s, HEADER_SIZE)
    case None => None
    case Some(header) =>
      match TakeWord(header.rest)
      case None => None
      case Some(version) =>
        match TakeWord(version.rest)
        case None => None
        case Some(count) =>
          match ParseActions(count.rest, count.value, version.value)
          case None => None
          case Some(acts) => Some(Read(ActFile(header.value, version.value, acts.value), acts.rest))
  }

  /** A parsed file is a well-formed file whose encoding is what was read. */
  lemma ParseFileConsumes(s: seq<byte>)
    requires ParseFile(s).Some?
    ensures var r := ParseFile(s).value;
      FileAt(r.value) && ActionsFit(r.value.actions) && EncodeFile(r.value) + r.rest == s
  {
    hide TakeBytes, TakeWord, ParseActions, EncodeU32, EncodeActions, ActionAt;
    var header := TakeBytes(s, HEADER_SIZE).value;
    var version := TakeWord(header.rest).value;
    var count := TakeWord(version.rest).value;
    ParseActionsConsumes(count.rest, count.value, version.value);
    var acts := ParseActions(count.rest, count.value, version.value).value;
    assert s == header.value + EncodeU32(version.value) + EncodeU32(count.value)
      + EncodeActions(acts.value, version.value) + acts.rest;
  }

  /** Encoding a well-formed file and parsing it back gives the file and leaves what followed. */
  lemma ParseFileEncoded(f: ActFile, rest: seq<byte>)
    requires FileAt(f)
    ensures ActionsFit(f.actions)
    ensures ParseFile(EncodeFile(f) + rest) == Some(Read(f, rest))
  {
    hide TakeBytes, TakeWord, ParseActions, EncodeU32, EncodeActions, ActionAt;
    ParseActionsEncoded(f.actions, rest, f.version);
    var body := EncodeActions(f.actions, f.version) + rest;
    var r1 := EncodeU32(|f.actions|) + body;
    var r0 := EncodeU32(f.version) + r1;
    assert EncodeFile(f) + rest == f.header + r0;
    TakeBytesPrefix(f.header, r0);
    TakeWordEncoded(f.version, r1);
    TakeWordEncoded(|f.actions|, body);
  }

  // ---------------------------------------------------------------------------
  // What version 6 has that version 5 does not

  /** The signals of a list of actions, in all. */
  function SignalTotal(acts: seq<Action>): nat
    decreases |acts|
  {
    if acts == [] then 0 else SignalTotal(acts[..|acts| - 1]) + |acts[|acts| - 1].signals|
  }

  lemma {:induction false} SignalsShrink(sgs: seq<Signal>, version: nat)
    requires SignalsFit(sgs) && version >= 6
    ensures |EncodeSignals(sgs, version)| == |EncodeSignals(sgs, 5)| + |sgs|
    decreases |sgs|
  {
    if sgs != [] {
      SignalsShrink(sgs[..|sgs| - 1], version);
    }
  }

  /** Each action loses its `unknownV6` byte and one byte per signal. */
  lemma ActionShrinks(a: Action, version: nat)
    requires ActionFits(a) && version >= 6
    ensures |EncodeAction(a, version)| == |EncodeAction(a, 5)| + 1 + |a.signals|
  {
    SignalsShrink(a.signals, version);
  }

  lemma {:induction false} ActionsShrink(acts: seq<Action>, version: nat)
    requires ActionsFit(acts) && version >= 6
    ensures |EncodeActions(acts, version)| == |EncodeActions(acts, 5)| + |acts| + SignalTotal(acts)
    decreases |acts|
  {
    if acts != [] {
      ActionsShrink(acts[..|acts| - 1], version);
      ActionShrinks(acts[|acts| - 1], version);
    }
  }
}
