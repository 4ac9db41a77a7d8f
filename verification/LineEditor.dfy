/** The line editor of the user library: reading a line from a stream of keys. */
module LineEditor {

  const CARRIAGE_RETURN := 13 as char
  const BACKSPACE := 8 as char
  const NO_KEY := '\0'

  /** The keys that were pressed, without the polls that found none. */
  function Pressed(keys: seq<char>): seq<char> {
    if keys == [] then []
    else if keys[0] == NO_KEY then Pressed(keys[1..])
    else [keys[0]] + Pressed(keys[1..])
  }

  /** One poll finds its key, or none; and the keys of two stretches of polls follow each other. */
  lemma {:induction false} PressedParts(a: seq<char>, b: seq<char>)
    ensures Pressed(a + b) == Pressed(a) + Pressed(b)
    ensures |a| == 1 ==> Pressed(a) == if a[0] == '\0' then [] else a
  {
    if a == [] {
      assert a + b == b;
    } else {
      PressedParts(a[1..], b);
      assert (a + b)[1..] == a[1..] + b;
    }
  }

  /** A finished line, the keys not used for it, and the keys shown while it was typed. */
  datatype Edited = Edited(line: string, rest: seq<char>, shown: string)

  /** Editing as a fold over the pressed keys: a carriage return or a full line stops it,
      backspace takes back the last character if there is one, any other key is appended.
      The keys reach a stop if there is a result at all. */
  function Edit(line: string, keys: seq<char>, max: int, shown: string): (r: Edited)
    requires Stops(line, keys, max)
    ensures |line| <= max - 1 ==> |r.line| <= max - 1
    decreases |keys|
  {
    if |line| >= max - 1 then Edited(line, keys, shown)
    else if keys[0] == CARRIAGE_RETURN then Edited(line, keys[1..], shown)
    else Edit(Typed(line, keys[0]), keys[1..], max, shown + [keys[0]])
  }

  /** The line after one more key. */
  function Typed(line: string, key: char): string {
    if key == BACKSPACE && line != [] then line[..|line| - 1] else line + [key]
  }

  /** The keys bring the line to an end. */
  predicate Stops(line: string, keys: seq<char>, max: int)
    decreases |keys|
  {
    |line| >= max - 1
    || (keys != [] && (keys[0] == CARRIAGE_RETURN || Stops(Typed(line, keys[0]), keys[1..], max)))
  }

  /** A character and a backspace typed after it cancel out exactly when the character does not
      fill the line: a full line ends before the backspace is read. */
  lemma {:induction false} BackspaceCancels(line: string, c: char, keys: seq<char>, max: int)
    requires |line| < max - 1 && c != CARRIAGE_RETURN && c != BACKSPACE
    requires Stops(line, [c, BACKSPACE] + keys, max) && Stops(line, keys, max)
    ensures |line| + 1 < max - 1 ==>
              Edit(line, [c, BACKSPACE] + keys, max, []).line == Edit(line, keys, max, []).line
    ensures |line| + 1 == max - 1 ==>
              Edit(line, [c, BACKSPACE] + keys, max, []).line == line + [c]
  {
    var all := [c, BACKSPACE] + keys;
    var typed := line + [c];
    assert all[0] == c && all[1..] == [BACKSPACE] + keys;
    assert Edit(line, all, max, []) == Edit(typed, [BACKSPACE] + keys, max, [] + [c]);
    if |line| + 1 < max - 1 {
      assert ([BACKSPACE] + keys)[1..] == keys && Typed(typed, BACKSPACE) == line;
      assert Edit(typed, [BACKSPACE] + keys, max, [] + [c]) == Edit(line, keys, max, [] + [c] + [BACKSPACE]);
      LineIgnoresShown(line, keys, max, [] + [c] + [BACKSPACE], []);
    }
  }

  lemma {:induction false} LineIgnoresShown(line: string, keys: seq<char>, max: int, s: string, t: string)
    requires Stops(line, keys, max)
    ensures Edit(line, keys, max, s).line == Edit(line, keys, max, t).line
    decreases |keys|
  {
    if |line| < max - 1 && keys[0] != CARRIAGE_RETURN {
      LineIgnoresShown(Typed(line, keys[0]), keys[1..], max, s + [keys[0]], t + [keys[0]]);
    }
  }

  /** Every key before the stop makes the line longer or shorter by one, also a backspace on an empty
      line: the length of the line has the parity of the number of keys. */
  lemma {:induction false} EachKeyCounts(line: string, keys: seq<char>, max: int, shown: string)
    requires Stops(line, keys, max)
    ensures var r := Edit(line, keys, max, shown);
            (|line| + |r.shown|) % 2 == (|r.line| + |shown|) % 2
    decreases |keys|
  {
    if |line| < max - 1 && keys[0] != CARRIAGE_RETURN {
      EachKeyCounts(Typed(line, keys[0]), keys[1..], max, shown + [keys[0]]);
    }
  }

  /** All keys are accounted for: those used are shown, in order; then comes a carriage return, or
      else the line is full; and the rest is left. */
  lemma {:induction false} KeysAccounted(line: string, keys: seq<char>, max: int, shown: string)
    requires Stops(line, keys, max)
    ensures var r := Edit(line, keys, max, shown);
            shown + keys == r.shown + (if |r.line| >= max - 1 then [] else [CARRIAGE_RETURN]) + r.rest
    decreases |keys|
  {
    if |line| < max - 1 {
      assert keys == [keys[0]] + keys[1..];
      if keys[0] != CARRIAGE_RETURN {
        KeysAccounted(Typed(line, keys[0]), keys[1..], max, shown + [keys[0]]);
      }
    }
  }

  /** A backspace typed first is kept, as a character of the line. */
  lemma {:induction false} FirstBackspaceIsKept(text: string, max: int)
    requires CARRIAGE_RETURN !in text && BACKSPACE !in text && 1 + |text| < max - 1
    ensures Stops([], [BACKSPACE] + text + [CARRIAGE_RETURN], max)
    ensures Edit([], [BACKSPACE] + text + [CARRIAGE_RETURN], max, []).line == [BACKSPACE] + text
  {
    var keys := [BACKSPACE] + text + [CARRIAGE_RETURN];
    assert keys[1..] == text + [CARRIAGE_RETURN];
    PlainTextIsKept([BACKSPACE], text, max, [BACKSPACE]);
    assert [] + [BACKSPACE] == [BACKSPACE];
  }

  /** Text without control keys comes back as it was typed. */
  lemma {:induction false} PlainTextIsKept(line: string, text: string, max: int, shown: string)
    requires CARRIAGE_RETURN !in text && BACKSPACE !in text && |line| + |text| < max - 1
    ensures Stops(line, text + [CARRIAGE_RETURN], max)
    ensures Edit(line, text + [CARRIAGE_RETURN], max, shown).line == line + text
    decreases |text|
  {
    if text == [] {
      assert line + text == line;
    } else {
      var keys := text + [CARRIAGE_RETURN];
      assert keys[1..] == text[1..] + [CARRIAGE_RETURN];
      PlainTextIsKept(line + [text[0]], text[1..], max, shown + [text[0]]);
      assert line + [text[0]] + text[1..] == line + text;
    }
  }

  /** What os_getkey returns, poll by poll. */
  class KeyStream {
    const keys: seq<char>
    var next: nat

    ghost predicate Valid()
      reads this
    {
      next <= |keys|
    }

    ghost function Remaining(): seq<char>
      requires Valid()
      reads this
    {
      Pressed(keys[next..])
    }

    constructor (keys: seq<char>)
      ensures Valid() && this.keys == keys && next == 0
    {
      this.keys, next := keys, 0;
    }

    /** getkey_block: polls until a key comes. */
    method GetKeyBlock() returns (val: char)
      requires Valid() && Remaining() != []
      modifies this
      ensures Valid() && next > old(next)
      ensures val == old(Remaining())[0] && Remaining() == old(Remaining())[1..]
    {
      val := keys[next];
      next := next + 1;
      while val == NO_KEY
        invariant Valid() && next > old(next) && val == keys[next - 1]
        invariant Pressed(keys[next - 1..]) == old(Remaining())
        decreases |keys| - next
      {
        assert keys[next - 1..][1..] == keys[next..];
        assert next < |keys|;
        val := keys[next];
        next := next + 1;
      }
      assert keys[next - 1..][1..] == keys[next..];
    }
  }

  /** A key goes into the line of i characters; the index steps back by two and on by one on a
      backspace, unless the line is empty. */
  method PutKey(out: array<char>, i: int, key: char) returns (i': int)
    requires 0 <= i < out.Length
    modifies out
    ensures 0 <= i' <= i + 1 && i' <= out.Length && out[..i'] == Typed(old(out[..i]), key)
    ensures forall k :: 0 <= k < out.Length && k > i ==> out[k] == old(out[k])
  {
    i' := i;
    if key == BACKSPACE && i' >= 1 {
      out[i' - 1] := '\0';
      i' := i' - 2;
      i' := i' + 1;
      return;
    }
    out[i'] := key;
    i' := i' + 1;
  }

  /** terminal_readline: out holds the edited line and its terminator, and nothing outside the
      first max places is touched, although the index steps back by two on a backspace. */
  method ReadLine(stream: KeyStream, out: array<char>, max: int, outWhileType: bool)
    returns (i: int, screen: string)
    requires stream.Valid() && max <= out.Length && 1 <= out.Length
    requires Stops([], stream.Remaining(), max)
    modifies stream, out
    ensures var r := Edit([], old(stream.Remaining()), max, []);
            && i == |r.line| && out[..i] == r.line && out[i] == '\0'
            && stream.Valid() && stream.Remaining() == r.rest
            && screen == if outWhileType then r.shown else []
    ensures outWhileType ==>
              && i % 2 == |screen| % 2
              && old(stream.Remaining()) == screen + (if i >= max - 1 then [] else ['\r']) + stream.Remaining()
    ensures forall k :: 0 <= k < out.Length && k >= max && k > 0 ==> out[k] == old(out[k])
  {
    i, screen := 0, [];
    ghost var shown: string := [];
    ghost var r := Edit([], stream.Remaining(), max, []);
    EachKeyCounts([], stream.Remaining(), max, []);
    KeysAccounted([], stream.Remaining(), max, []);
    assert [] + stream.Remaining() == stream.Remaining();
    while i < max - 1
      invariant stream.Valid() && 0 <= i < out.Length && (i == 0 || i <= max - 1)
      invariant Stops(out[..i], stream.Remaining(), max)
      invariant r == Edit(out[..i], stream.Remaining(), max, shown)
      invariant screen == if outWhileType then shown else []
      invariant forall k :: 0 <= k < out.Length && k >= max && k > 0 ==> out[k] == old(out[k])
      decreases |stream.keys| - stream.next
    {
      var key := stream.GetKeyBlock();
      if key == CARRIAGE_RETURN {
        break;
      }
      if outWhileType {
        screen := screen + [key];
      }
      shown := shown + [key];
      i := PutKey(out, i, key);
    }
    out[i] := '\0';
  }
}
