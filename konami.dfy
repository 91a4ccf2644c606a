/** The Konami-code easter egg: a sliding window over the most recent key
    codes, compared after every keydown with a fixed key sequence. The
    functions and lemmas take that sequence as `target`; the page's own
    ten-key sequence is `KonamiSequence`. */
module Konami {

  /** The key codes that trigger the easter egg, in order. */
  const KonamiSequence: seq<string> :=
    ["ArrowUp", "ArrowUp", "ArrowDown", "ArrowDown", "ArrowLeft",
     "ArrowRight", "ArrowLeft", "ArrowRight", "KeyB", "KeyA"]

  /** The last `n` elements of `h` (all of `h` when it is shorter). */
  function LastN(h: seq<string>, n: nat): (r: seq<string>)
    ensures |r| == if |h| <= n then |h| else n
    ensures r == h[|h| - |r|..]
  {
    if |h| <= n then h else h[|h| - n..]
  }

  /** True when the most recent codes of history `h` are the target. */
  predicate EndsWith(h: seq<string>, target: seq<string>)
  {
    |h| >= |target| && h[|h| - |target|..] == target
  }

  /** The buffer after pushing `code` and dropping the oldest entry when the
      buffer has grown longer than the target. */
  function Window(target: seq<string>, buffer: seq<string>, code: string): (r: seq<string>)
    requires 0 < |target| && |buffer| <= |target|
    ensures |r| <= |target|
    ensures |r| > 0 && r[|r| - 1] == code
    ensures r == LastN(buffer + [code], |target|)
  {
    var b := buffer + [code];
    if |b| > |target| then b[1..] else b
  }

  /** Whether a keydown on a buffer fires the egg: the comparison of the
      window with the target. Only the target's last key can fire it, and
      only on a buffer at most one code short of the target. */
  predicate Fires(target: seq<string>, buffer: seq<string>, code: string)
    requires 0 < |target| && |buffer| <= |target|
    ensures Fires(target, buffer, code) ==>
      |buffer| + 1 >= |target| && code == target[|target| - 1]
  {
    Window(target, buffer, code) == target
  }

  /** A keydown fires exactly when the buffer followed by the code ends
      with the target. */
  lemma FiresIffEndsWith(target: seq<string>, buffer: seq<string>, code: string)
    requires 0 < |target| && |buffer| <= |target|
    ensures Fires(target, buffer, code) <==> EndsWith(buffer + [code], target)
  {
    var b := buffer + [code];
    var w := Window(target, buffer, code);
    assert w == LastN(b, |target|);
    if |b| >= |target| {
      assert w == b[|b| - |target|..];
    } else {
      assert |w| < |target|;
    }
  }

  /** The buffer after a keydown: emptied when the egg fires. */
  function AfterKey(target: seq<string>, buffer: seq<string>, code: string): (r: seq<string>)
    requires 0 < |target| && |buffer| <= |target|
    ensures |r| <= |target|
  {
    if Fires(target, buffer, code) then [] else Window(target, buffer, code)
  }

  /** The buffer after a run of key codes has been fed to it. */
  function FeedBuffer(target: seq<string>, buffer: seq<string>, keys: seq<string>): (r: seq<string>)
    requires 0 < |target| && |buffer| <= |target|
    ensures |r| <= |target|
    decreases |keys|
  {
    if keys == [] then buffer
    else FeedBuffer(target, AfterKey(target, buffer, keys[0]), keys[1..])
  }

  /** The number of times the egg fires while a run of key codes is fed to
      a buffer: at most once per key. */
  function FireCount(target: seq<string>, buffer: seq<string>, keys: seq<string>): (r: nat)
    requires 0 < |target| && |buffer| <= |target|
    ensures r <= |keys|
    decreases |keys|
  {
    if keys == [] then 0
    else
      (if Fires(target, buffer, keys[0]) then 1 else 0)
      + FireCount(target, AfterKey(target, buffer, keys[0]), keys[1..])
  }

  /** Every trigger uses up a full sequence's worth of codes, held in the
      buffer or typed in the run, because the buffer is emptied after it;
      what is left over stays in the buffer. */
  lemma {:induction false} FireCountBound(target: seq<string>, buffer: seq<string>, keys: seq<string>)
    requires 0 < |target| && |buffer| <= |target|
    ensures FireCount(target, buffer, keys) * |target| + |FeedBuffer(target, buffer, keys)|
      <= |buffer| + |keys|
    decreases |keys|
  {
    if keys != [] {
      var after := AfterKey(target, buffer, keys[0]);
      FireStepBound(target, buffer, keys[0]);
      FireCountBound(target, after, keys[1..]);
      BoundStep(FireCount(target, buffer, keys), FireCount(target, after, keys[1..]), |target|,
        |FeedBuffer(target, after, keys[1..])|, |after|, |buffer|, |keys|);
    }
  }

  /** The arithmetic of one step of FireCountBound: a trigger adds one to
      the count and uses up `n` codes, any other key adds at most one code
      to the buffer. */
  lemma BoundStep(total: nat, rest: nat, n: nat, left: nat, after: nat, buffer: nat, keys: nat)
    requires 0 < keys
    requires (total == rest + 1 && after == 0 && buffer + 1 >= n) || (total == rest && after <= buffer + 1)
    requires rest * n + left <= after + keys - 1
    ensures total * n + left <= buffer + keys
  {
    if total == rest + 1 {
      MulSucc(rest, n);
    }
  }

  /** One keydown: a trigger needs a buffer one short of the target and
      empties it; otherwise the buffer grows by at most one. */
  lemma FireStepBound(target: seq<string>, buffer: seq<string>, code: string)
    requires 0 < |target| && |buffer| <= |target|
    ensures Fires(target, buffer, code) ==>
      |buffer| + 1 >= |target| && AfterKey(target, buffer, code) == []
    ensures !Fires(target, buffer, code) ==> |AfterKey(target, buffer, code)| <= |buffer| + 1
  {
    assert |Window(target, buffer, code)| <= |buffer| + 1;
  }

  lemma MulSucc(a: nat, n: nat)
    ensures (a + 1) * n == a * n + n
  {
  }

  /** The window kept over the whole history since the last reset is the
      last |target| codes of that history. */
  lemma {:induction false} WindowTracksHistory(target: seq<string>, h: seq<string>, code: string)
    requires 0 < |target|
    ensures Window(target, LastN(h, |target|), code) == LastN(h + [code], |target|)
  {
    var n := |target|;
    var b := LastN(h, n) + [code];
    var h' := h + [code];
    if |h| <= n {
      assert b == h';
    } else {
      assert b == h'[|h'| - n - 1..];
      assert b[1..] == h'[|h'| - n..];
    }
  }

  /** The egg fires exactly when the most recent codes equal the target;
      in particular fewer codes than the target holds can never fire. */
  lemma {:induction false} FiresIffLastMatch(target: seq<string>, h: seq<string>, code: string)
    requires 0 < |target|
    ensures Fires(target, LastN(h, |target|), code) <==> EndsWith(h + [code], target)
  {
    var h' := h + [code];
    var w := LastN(h', |target|);
    WindowTracksHistory(target, h, code);
    assert Fires(target, LastN(h, |target|), code) <==> w == target;
    if |h'| >= |target| {
      assert w == h'[|h'| - |target|..];
    } else {
      assert |w| < |target|;
    }
  }

  /** A keydown on the window of a history either fires, emptying the
      buffer, or leaves the window of the extended history. */
  lemma KeyStepKeepsWindow(target: seq<string>, h: seq<string>, code: string)
    requires 0 < |target|
    ensures Fires(target, LastN(h, |target|), code) <==> EndsWith(h + [code], target)
    ensures AfterKey(target, LastN(h, |target|), code)
      == if EndsWith(h + [code], target) then [] else LastN(h + [code], |target|)
  {
    WindowTracksHistory(target, h, code);
    FiresIffLastMatch(target, h, code);
  }

  /** Starting from a buffer, a run of keys that together stay below the
      target's length never fires and only appends to the buffer. */
  lemma {:induction false} ShortRunNeverFires(target: seq<string>, buffer: seq<string>, keys: seq<string>)
    requires |buffer| + |keys| < |target|
    ensures FeedBuffer(target, buffer, keys) == buffer + keys
    ensures FireCount(target, buffer, keys) == 0
    decreases |keys|
  {
    if keys == [] {
      assert buffer + keys == buffer;
    } else {
      var w := buffer + [keys[0]];
      ShortKeyStep(target, buffer, keys[0]);
      ShortRunNeverFires(target, w, keys[1..]);
      assert w + keys[1..] == buffer + keys;
    }
  }

  /** A keydown that leaves fewer codes than the target only appends. */
  lemma ShortKeyStep(target: seq<string>, buffer: seq<string>, code: string)
    requires |buffer| + 1 < |target|
    ensures !Fires(target, buffer, code)
    ensures AfterKey(target, buffer, code) == buffer + [code]
  {
    assert |Window(target, buffer, code)| < |target|;
  }

  /** Feeding two runs of keys one after the other is feeding their
      concatenation; the triggers of the two runs add up. */
  lemma {:induction false} FeedSplit(target: seq<string>, buffer: seq<string>, k1: seq<string>, k2: seq<string>)
    requires 0 < |target| && |buffer| <= |target|
    ensures FeedBuffer(target, buffer, k1 + k2)
      == FeedBuffer(target, FeedBuffer(target, buffer, k1), k2)
    ensures FireCount(target, buffer, k1 + k2)
      == FireCount(target, buffer, k1) + FireCount(target, FeedBuffer(target, buffer, k1), k2)
    decreases |k1|
  {
    if k1 == [] {
      assert k1 + k2 == k2;
    } else {
      assert (k1 + k2)[0] == k1[0] && (k1 + k2)[1..] == k1[1..] + k2;
      FeedSplit(target, AfterKey(target, buffer, k1[0]), k1[1..], k2);
    }
  }

  /** Feeding a single key is one keydown. */
  lemma FeedOne(target: seq<string>, buffer: seq<string>, code: string)
    requires 0 < |target| && |buffer| <= |target|
    ensures FeedBuffer(target, buffer, [code]) == AfterKey(target, buffer, code)
    ensures FireCount(target, buffer, [code]) == if Fires(target, buffer, code) then 1 else 0
  {
    assert [code][1..] == [];
  }

  /** Typing the whole sequence into an empty buffer fires the egg exactly
      once, on the last key, and leaves the buffer empty. */
  lemma {:induction false} FullSequenceFiresOnce(target: seq<string>)
    requires 0 < |target|
    ensures FireCount(target, [], target) == 1
    ensures FeedBuffer(target, [], target) == []
  {
    var n := |target|;
    var init, last := target[..n - 1], target[n - 1];
    assert target == init + [last];
    ShortRunNeverFires(target, [], init);
    assert [] + init == init;
    FeedSplit(target, [], init, [last]);
    assert Window(target, init, last) == target;
    FeedOne(target, init, last);
  }

  /** After a trigger the buffer is empty, so the next trigger needs a full
      run of fresh keys: overlapping repetitions cannot chain. */
  lemma {:induction false} NoChainAfterTrigger(target: seq<string>, keys: seq<string>)
    requires 0 < |target|
    ensures FireCount(target, [], keys) > 0 ==> |keys| >= |target|
  {
    if |keys| < |target| {
      ShortRunNeverFires(target, [], keys);
    }
  }

  /** The handler state of the page: `konamiSequence` is the fixed target,
      `konamiCode` the buffer the keydown listener updates in place, and
      `sinceReset` the history of codes since the buffer was last cleared. */
  class KonamiDetector {
    const konamiSequence: seq<string>
    var konamiCode: seq<string>
    ghost var sinceReset: seq<string>

    ghost predicate Valid()
      reads this
    {
      && 0 < |konamiSequence|
      && konamiCode == LastN(sinceReset, |konamiSequence|)
    }

    constructor ()
      ensures Valid()
      ensures konamiSequence == KonamiSequence
      ensures konamiCode == [] && sinceReset == []
    {
      konamiSequence := KonamiSequence;
      konamiCode := [];
      sinceReset := [];
    }

    /** The keydown listener: push, shift when too long, compare, and on a
        match fire the egg (`fired`) and clear the buffer. */
    method KeyDown(code: string) returns (fired: bool)
      requires Valid()
      modifies this
      ensures Valid()
      ensures |konamiCode| <= |konamiSequence|
      ensures fired == Fires(konamiSequence, old(konamiCode), code)
      ensures konamiCode == AfterKey(konamiSequence, old(konamiCode), code)
      ensures fired <==> EndsWith(old(sinceReset) + [code], konamiSequence)
      ensures fired ==> konamiCode == [] && sinceReset == []
      ensures !fired ==> sinceReset == old(sinceReset) + [code]
      ensures !fired ==> konamiCode[|konamiCode| - 1] == code
    {
      ghost var w := Window(konamiSequence, konamiCode, code);
      KeyStepKeepsWindow(konamiSequence, sinceReset, code);
      var buffer := konamiCode + [code];
      if |buffer| > |konamiSequence| {
        buffer := buffer[1..];
      }
      assert buffer == w;
      fired := buffer == konamiSequence;
      if fired {
        konamiCode, sinceReset := [], [];
      } else {
        assert AfterKey(konamiSequence, old(konamiCode), code) == w;
        konamiCode, sinceReset := buffer, sinceReset + [code];
      }
    }
  }
}
