/**
 * What the version 6 to version 5 conversion promises about its output: the
 * 32 header bytes and the action count are copied, the version becomes 5,
 * exactly one byte per action and one per signal is dropped, and the output
 * read back as a version 5 file holds the same actions with nothing changed
 * but the two version 6 fields, which a version 5 file does not have.
 */
module ActProperties {
  import opened Wrappers
  import opened Bytes
  import opened Text
  import opened Streams
  import opened ActFormat
  import opened ActPath
  import opened ActConverter

  /** An action as a version 5 file holds it: the version 6 byte of the action and of each signal gone. */
  function Downgrade(a: Action): (r: Action)
    ensures r.name == a.name && r.linkAniName == a.linkAniName && r.length == a.length
    ensures r.nextActionName == a.nextActionName && r.blendFrame == a.blendFrame
    ensures r.nextActionFrame == a.nextActionFrame
    ensures r.additions == a.additions.(unknownV6 := 0)
    ensures |r.signals| == |a.signals|
    ensures forall i :: 0 <= i < |a.signals| ==> r.signals[i] == a.signals[i].(act6 := 0)
  {
    a.(additions := a.additions.(unknownV6 := 0),
       signals := seq(|a.signals|, i requires 0 <= i < |a.signals| => a.signals[i].(act6 := 0)))
  }

  function DowngradeAll(acts: seq<Action>): (r: seq<Action>)
    ensures |r| == |acts| && forall i :: 0 <= i < |acts| ==> r[i] == Downgrade(acts[i])
  {
    seq(|acts|, i requires 0 <= i < |acts| => Downgrade(acts[i]))
  }

  // ---------------------------------------------------------------------------
  // The conversion in terms of the parsed file

  /**
   * A conversion succeeds exactly when the input has a file name and parses as
   * a file of version 6 or later; the bytes written are that file encoded with
   * version 5.
   */
  lemma ConvertParses(input: seq<byte>, fileName: Option<Text>, parent: Text, base: Path)
    ensures var r := Convert(input, fileName, parent, base);
      r.Converted? <==> fileName.Some? && ParseFile(input).Some? && ParseFile(input).value.value.version >= 6
    ensures var r := Convert(input, fileName, parent, base);
      r.Converted? ==>
        var f := ParseFile(input).value.value;
        && |f.actions| < U32_LIMIT && ActionsFit(f.actions)
        && r.bytes == EncodeFile(ActFile(f.header, TARGET_VERSION, f.actions))
  {
    if fileName.Some? && ParseFile(input).Some? {
      ParseFileConsumes(input);
    }
  }

  /** The first 40 bytes of an encoded file, whatever follows it: the header, the version and the action count. */
  lemma FileLayout(f: ActFile, rest: seq<byte>)
    requires |f.header| == HEADER_SIZE && |f.actions| < U32_LIMIT && ActionsFit(f.actions)
    ensures var b := EncodeFile(f) + rest;
      && HEADER_SIZE + 8 <= |b| && b[..32] == f.header
      && b[32..36] == EncodeU32(f.version) && b[36..40] == EncodeU32(|f.actions|)
  {
    hide EncodeActions;
    var b := EncodeFile(f) + rest;
    assert b == f.header + EncodeU32(f.version) + EncodeU32(|f.actions|) + (EncodeActions(f.actions, f.version) + rest);
  }

  /** The output begins with the input's 32 header bytes, then version 5, then the input's action count. */
  lemma ConvertKeepsHeader(input: seq<byte>, fileName: Option<Text>, parent: Text, base: Path)
    requires Convert(input, fileName, parent, base).Converted?
    ensures var out := Convert(input, fileName, parent, base).bytes;
      && HEADER_SIZE + 8 <= |out| && HEADER_SIZE + 8 <= |input|
      && out[..32] == input[..32]
      && out[32..36] == EncodeU32(TARGET_VERSION)
      && out[36..40] == input[36..40]
  {
    hide Convert, ParseFile, EncodeFile, ActionAt, ActionsFit;
    ConvertParses(input, fileName, parent, base);
    ParseFileConsumes(input);
    var p := ParseFile(input).value;
    var f := p.value;
    FileLayout(f, p.rest);
    var g := ActFile(f.header, TARGET_VERSION, f.actions);
    FileLayout(g, []);
    assert EncodeFile(g) + [] == EncodeFile(g);
  }

  /**
   * Apart from the rewritten version, the bytes not copied are one per action
   * and one per signal: the output is the input read, less that many bytes.
   */
  lemma ConvertLength(input: seq<byte>, fileName: Option<Text>, parent: Text, base: Path)
    requires Convert(input, fileName, parent, base).Converted?
    ensures var p := ParseFile(input);
      p.Some? &&
      |Convert(input, fileName, parent, base).bytes|
        == (|input| - |p.value.rest|) - |p.value.value.actions| - SignalTotal(p.value.value.actions)
  {
    ConvertParses(input, fileName, parent, base);
    ParseFileConsumes(input);
    var f := ParseFile(input).value.value;
    ActionsShrink(f.actions, f.version);
  }

  /**
   * When the actions cannot all be read, the file created still begins with the
   * input's header, version 5 and the input's count, followed by every action
   * read whole before the first that fails, encoded at version 5; the input then
   * is not a readable file.
   */
  lemma TruncatedKeeps(input: seq<byte>, fileName: Option<Text>, parent: Text, base: Path)
    requires var r := Convert(input, fileName, parent, base); r.Truncated? && r.created.Some?
    ensures var k := Convert(input, fileName, parent, base).keeps;
      && HEADER_SIZE + 8 <= |k| && HEADER_SIZE + 8 <= |input|
      && k[..32] == input[..32]
      && k[32..36] == EncodeU32(TARGET_VERSION)
      && k[36..40] == input[36..40]
      && var version := DecodeU32(input[32..36]);
         var count := DecodeU32(input[36..40]);
         var whole := WholeActions(input[40..], count, version);
         && version >= 6 && |whole.value| < count
         && ParseActions(input[40..], |whole.value| + 1, version).None?
         && k[40..] == EncodeActions(whole.value, TARGET_VERSION)
    ensures ParseFile(input).None?
  {
    hide Convert, ParseActions, EncodeActions, WholeActions, EncodeU32, TakeBytes, TakeWord, OutputDirectory, OutputFile,
      KeptOutput, ParseFile, DecodeU32;
    var header := TakeBytes(input, HEADER_SIZE);
    if header.None? {
      ConvertRead(input, fileName, parent, base, header, None, None, None);
      assert false;
    }
    var version := TakeWord(header.value.rest);
    if version.None? || version.value.value < FIRST_CONVERTED_VERSION {
      ConvertRead(input, fileName, parent, base, header, version, None, None);
      assert false;
    }
    var count := TakeWord(version.value.rest);
    if count.None? {
      ConvertRead(input, fileName, parent, base, header, version, count, None);
      assert false;
    }
    var v, n, rest := version.value.value, count.value.value, count.value.rest;
    var acts := ParseActions(rest, n, v);
    ConvertRead(input, fileName, parent, base, header, version, count, acts);
    assert acts.None?;
    assert input == header.value.value + EncodeU32(v) + EncodeU32(n) + rest;
    KeptParts(input, header.value.value, v, n, rest, Convert(input, fileName, parent, base).keeps);
  }

  /** `TruncatedKeeps` on the fields read: the header, the version, the count and the bytes after them. */
  lemma KeptParts(input: seq<byte>, header: seq<byte>, v: u32, n: u32, rest: seq<byte>, k: seq<byte>)
    requires |header| == HEADER_SIZE && v >= FIRST_CONVERTED_VERSION
    requires input == header + EncodeU32(v) + EncodeU32(n) + rest
    requires ParseActions(rest, n, v).None? && k == KeptOutput(header, n, rest, v)
    ensures HEADER_SIZE + 8 <= |k| && HEADER_SIZE + 8 <= |input|
    ensures k[..32] == input[..32] && k[32..36] == EncodeU32(TARGET_VERSION) && k[36..40] == input[36..40]
    ensures DecodeU32(input[32..36]) == v && DecodeU32(input[36..40]) == n && input[40..] == rest
    ensures var whole := WholeActions(rest, n, v);
      && |whole.value| < n && ParseActions(rest, |whole.value| + 1, v).None?
      && k[40..] == EncodeActions(whole.value, TARGET_VERSION)
    ensures ParseFile(input).None?
  {
    hide ParseActions, EncodeActions, WholeActions, EncodeU32, TakeBytes, TakeWord;
    Layout(input, header, EncodeU32(v), EncodeU32(n), rest);
    U32RoundTrip(v);
    U32RoundTrip(n);
    var whole := WholeActions(rest, n, v);
    assert ParseActions(rest, |whole.value|, v).Some?;
    Layout(k, header, EncodeU32(TARGET_VERSION), EncodeU32(n), EncodeActions(whole.value, TARGET_VERSION));
    var h := TakeBytes(input, HEADER_SIZE);
    assert h.value.value == header && h.value.rest == EncodeU32(v) + (EncodeU32(n) + rest);
    var ver := TakeWord(h.value.rest);
    WordRead(v, EncodeU32(n) + rest, ver);
    var cnt := TakeWord(ver.value.rest);
    WordRead(n, rest, cnt);
  }

  /** A word read from the bytes `EncodeU32(x) + rest` is `x`, and `rest` follows it. */
  lemma WordRead(x: u32, rest: seq<byte>, r: Option<Read<u32>>)
    requires r == TakeWord(EncodeU32(x) + rest)
    ensures r == Some(Read(x, rest))
  {
    hide TakeWord, EncodeU32;
    var s := EncodeU32(x) + rest;
    var y := r.value.value;
    assert EncodeU32(y) == s[..4] == EncodeU32(x);
    U32RoundTrip(x);
    U32RoundTrip(y);
  }

  /** The 40 bytes every file starts with, and what follows them. */
  lemma Layout(b: seq<byte>, header: seq<byte>, version: seq<byte>, count: seq<byte>, rest: seq<byte>)
    requires |header| == HEADER_SIZE && |version| == 4 && |count| == 4
    requires b == header + version + count + rest
    ensures HEADER_SIZE + 8 <= |b| && b[..32] == header && b[32..36] == version && b[36..40] == count
    ensures b[40..] == rest
  {
  }

  // ---------------------------------------------------------------------------
  // Reading the output back

  /** Version 5 encodes neither version 6 byte, so clearing them changes nothing written. */
  lemma {:induction false} SignalsDowngraded(sgs: seq<Signal>, down: seq<Signal>)
    requires SignalsFit(sgs) && |down| == |sgs|
    requires forall i :: 0 <= i < |sgs| ==> down[i] == sgs[i].(act6 := 0)
    ensures SignalsFit(down) && forall i :: 0 <= i < |down| ==> SignalAt(down[i], 5)
    ensures EncodeSignals(down, 5) == EncodeSignals(sgs, 5)
    decreases |sgs|
  {
    if sgs != [] {
      var k := |sgs| - 1;
      SignalsDowngraded(sgs[..k], down[..k]);
      assert down[..k] == down[..|down| - 1];
      assert SignalFits(sgs[k]);
    }
  }

  lemma ActionDowngraded(a: Action)
    requires ActionFits(a)
    ensures ActionAt(Downgrade(a), 5)
    ensures EncodeAction(Downgrade(a), 5) == EncodeAction(a, 5)
  {
    var d := Downgrade(a);
    SignalsDowngraded(a.signals, d.signals);
    assert EncodeAdditions(d.additions, 5) == EncodeAdditions(a.additions, 5);
    assert EncodeActionHead(d, 5) == EncodeActionHead(a, 5);
  }

  lemma {:induction false} ActionsDowngraded(acts: seq<Action>)
    requires ActionsFit(acts)
    ensures forall i :: 0 <= i < |acts| ==> ActionAt(DowngradeAll(acts)[i], 5)
    ensures ActionsFit(DowngradeAll(acts))
    ensures EncodeActions(DowngradeAll(acts), 5) == EncodeActions(acts, 5)
    decreases |acts|
  {
    var down := DowngradeAll(acts);
    forall i | 0 <= i < |acts|
      ensures ActionAt(down[i], 5) && ActionFits(down[i])
    {
      ActionDowngraded(acts[i]);
    }
    if acts != [] {
      var k := |acts| - 1;
      ActionsDowngraded(acts[..k]);
      assert DowngradeAll(acts[..k]) == down[..k];
      assert down[..k] == down[..|down| - 1];
      ActionDowngraded(acts[k]);
    }
  }

  /**
   * The output is a version 5 file that reads back, to its last byte, as the
   * input's header and actions with only the version 6 bytes cleared.
   */
  lemma ConvertRoundTrip(input: seq<byte>, fileName: Option<Text>, parent: Text, base: Path)
    requires Convert(input, fileName, parent, base).Converted?
    ensures var f := ParseFile(input);
      f.Some? &&
      ParseFile(Convert(input, fileName, parent, base).bytes)
        == Some(Read(ActFile(f.value.value.header, TARGET_VERSION, DowngradeAll(f.value.value.actions)), []))
  {
    hide Convert, ParseFile, EncodeActions, EncodeU32;
    ConvertParses(input, fileName, parent, base);
    ParseFileConsumes(input);
    var f := ParseFile(input).value.value;
    ActionsDowngraded(f.actions);
    var g := ActFile(f.header, TARGET_VERSION, DowngradeAll(f.actions));
    ParseFileEncoded(g, []);
    assert EncodeFile(g) + [] == EncodeFile(g);
  }
}
