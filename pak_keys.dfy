/**
 * The key store of the PAK extractor (`load_keys` in src-tauri/src/pak.rs):
 * the candidate AES-256 keys are the lines of a key list whose trimmed text is
 * exactly 31 bytes long, each followed by one zero byte.
 */
module PakKeys {
  import opened Wrappers
  import opened Bytes
  import opened Text

  /** The trimmed length of a line that holds a key. */
  const KEY_TEXT_LENGTH: nat := 31

  /** A 32-byte AES-256 secret. */
  type Key = k: seq<byte> | |k| == 32 witness seq(32, _ => 0)

  /**
   * Whether one line of the key list yields a key. A line that could not be
   * read (`Err` from the `lines()` iterator, `None` here) yields none.
   */
  predicate Accepts(line: Option<Text>)
  {
    line.Some? && |Trim(line.value)| == KEY_TEXT_LENGTH
  }

  /** The key of an accepted line: its trimmed text and a zero byte. */
  function KeyOf(line: Text): (k: Key)
    requires |Trim(line)| == KEY_TEXT_LENGTH
    ensures k[..KEY_TEXT_LENGTH] == Trim(line) && k[KEY_TEXT_LENGTH] == 0
  {
    Trim(line) + [0]
  }

  /** The keys one line contributes: none, or exactly one. */
  function KeysOfLine(line: Option<Text>): (ks: seq<Key>)
    ensures |ks| <= 1
    ensures |ks| == 1 <==> Accepts(line)
  {
    if Accepts(line) then [KeyOf(line.value)] else []
  }

  /** The keys of a whole key list, in file order. */
  function KeyList(lines: seq<Option<Text>>): seq<Key>
  {
    if lines == [] then [] else KeyList(lines[..|lines| - 1]) + KeysOfLine(lines[|lines| - 1])
  }

  /**
   * `load_keys` after the file was opened: reads the lines in order and keeps
   * the key of every accepted one.
   */
  method LoadKeys(lines: seq<Option<Text>>) returns (keys: seq<Key>)
    ensures keys == KeyList(lines)
    ensures |keys| <= |lines|
  {
    keys := [];
    for i := 0 to |lines|
      invariant keys == KeyList(lines[..i])
      invariant |keys| <= i
    {
      assert lines[..i + 1][..i] == lines[..i];
      var line := lines[i];
      if line.Some? {
        var key := Trim(line.value);
        if |key| == KEY_TEXT_LENGTH {
          TrimEndOfTrimmed(line.value);
          key := TrimEndBy(key, WHITESPACE);
          var keyBytes := key + [0];
          keys := keys + [keyBytes];
        }
      }
    }
    assert lines[..|lines|] == lines;
  }

  /** One more line adds its own keys after those already read. */
  lemma KeyListSnoc(lines: seq<Option<Text>>, line: Option<Text>)
    ensures KeyList(lines + [line]) == KeyList(lines) + KeysOfLine(line)
  {
    var all := lines + [line];
    assert all[..|all| - 1] == lines;
    assert all[|all| - 1] == line;
  }

  /** The keys of two consecutive stretches of the file are those of the first, then those of the second. */
  lemma {:induction false} KeyListAppend(a: seq<Option<Text>>, b: seq<Option<Text>>)
    ensures KeyList(a + b) == KeyList(a) + KeyList(b)
    decreases |b|
  {
    hide KeysOfLine;
    if b == [] {
      assert a + b == a;
    } else {
      var init := b[..|b| - 1];
      var last := b[|b| - 1];
      assert b == init + [last];
      assert a + b == (a + init) + [last];
      KeyListSnoc(a + init, last);
      KeyListSnoc(init, last);
      KeyListAppend(a, init);
      calc {
        KeyList(a + b);
        KeyList(a + init) + KeysOfLine(last);
        KeyList(a) + KeyList(init) + KeysOfLine(last);
        KeyList(a) + (KeyList(init) + KeysOfLine(last));
        KeyList(a) + KeyList(b);
      }
    }
  }

  /** Every key comes from an accepted line, and is that line's trimmed text with a zero byte. */
  lemma {:induction false} KeyListSound(lines: seq<Option<Text>>, j: nat)
    requires j < |KeyList(lines)|
    ensures exists i :: 0 <= i < |lines| && Accepts(lines[i]) && KeyList(lines)[j] == KeyOf(lines[i].value)
    decreases |lines|
  {
    var init := lines[..|lines| - 1];
    var last := lines[|lines| - 1];
    if j < |KeyList(init)| {
      KeyListSound(init, j);
      var i :| 0 <= i < |init| && Accepts(init[i]) && KeyList(init)[j] == KeyOf(init[i].value);
      assert lines[i] == init[i];
    } else {
      assert Accepts(last) && KeyList(lines)[j] == KeyOf(last.value);
    }
  }

  /** Every accepted line contributes its key, and no line contributes more than one. */
  lemma {:induction false} KeyListComplete(lines: seq<Option<Text>>, i: nat)
    requires i < |lines| && Accepts(lines[i])
    ensures KeyOf(lines[i].value) in KeyList(lines)
    ensures |KeyList(lines)| <= |lines|
    decreases |lines|
  {
    var init := lines[..|lines| - 1];
    KeyListLength(init);
    if i < |lines| - 1 {
      assert init[i] == lines[i];
      KeyListComplete(init, i);
    }
  }

  lemma {:induction false} KeyListLength(lines: seq<Option<Text>>)
    ensures |KeyList(lines)| <= |lines|
    decreases |lines|
  {
    if lines != [] {
      KeyListLength(lines[..|lines| - 1]);
    }
  }
}
