/** Lines and white space as Python's str sees them, and the native reader's Strip. */
module ConfigText {
  import opened Basics
  import opened ConfigUtf8

  predicate Space(c: CodePoint) {
    || 9 <= c <= 13 || 28 <= c <= 32 || c == 0x85 || c == 0xA0 || c == 0x1680 || 0x2000 <= c <= 0x200A
    || c == 0x2028 || c == 0x2029 || c == 0x202F || c == 0x205F || c == 0x3000
  }

  predicate LineBreak(c: CodePoint) {
    10 <= c <= 13 || 28 <= c <= 30 || c == 0x85 || c == 0x2028 || c == 0x2029
  }

  predicate Spaces(t: Text) { forall k :: 0 <= k < |t| ==> Space(t[k]) }

  predicate Stripped(t: Text) { t == [] || (!Space(t[0]) && !Space(t[|t| - 1])) }

  /** str.strip */
  function Strip(t: Text): Text
    decreases |t|
  {
    if t == [] then t
    else if Space(t[0]) then Strip(t[1..])
    else if Space(t[|t| - 1]) then Strip(t[..|t| - 1])
    else t
  }

  lemma {:induction false} StripIsStripped(t: Text)
    ensures Stripped(Strip(t)) && |Strip(t)| <= |t|
    decreases |t|
  {
    if t != [] {
      if Space(t[0]) {
        StripIsStripped(t[1..]);
      } else if Space(t[|t| - 1]) {
        StripIsStripped(t[..|t| - 1]);
      }
    }
  }

  /** Strip takes away exactly the white space around its result. */
  lemma {:induction false} StripPadded(before: Text, t: Text, after: Text)
    requires Spaces(before) && Spaces(after) && Stripped(t)
    ensures Strip(before + t + after) == t
    decreases |before| + |after|
  {
    var whole := before + t + after;
    if before != [] {
      assert Space(whole[0]) by { assert whole[0] == before[0]; }
      assert whole[1..] == before[1..] + t + after;
      StripPadded(before[1..], t, after);
    } else if after != [] {
      assert whole[|whole| - 1] == after[|after| - 1];
      if t == [] {
        assert whole[0] == after[0];
        assert whole[1..] == before + t + after[1..];
        StripPadded(before, t, after[1..]);
      } else {
        assert whole[0] == t[0];
        assert whole[..|whole| - 1] == before + t + after[..|after| - 1];
        StripPadded(before, t, after[..|after| - 1]);
      }
    } else {
      assert whole == t;
    }
  }

  /** Strip, as the native reader narrows its two indices. */
  method StripText(t: Text) returns (result: Text)
    ensures result == Strip(t)
  {
    var first, last := 0, |t|;
    while first < last && Space(t[first])
      invariant 0 <= first <= last == |t|
      invariant Spaces(t[..first])
    {
      assert t[..first + 1] == t[..first] + [t[first]];
      first := first + 1;
    }
    while last > first && Space(t[last - 1])
      invariant first <= last <= |t|
      invariant first < last ==> !Space(t[first])
      invariant Spaces(t[last..])
    {
      assert t[last - 1..] == [t[last - 1]] + t[last..];
      last := last - 1;
    }
    result := t[first..last];
    assert t == t[..first] + result + t[last..];
    StripPadded(t[..first], result, t[last..]);
  }

  // ---- lines -------------------------------------------------------------------------

  /** How far the first line reaches. */
  function LineLength(t: Text): (n: nat)
    ensures n <= |t|
    ensures n < |t| ==> LineBreak(t[n])
    ensures forall k :: 0 <= k < n ==> !LineBreak(t[k])
  {
    if t == [] || LineBreak(t[0]) then 0 else LineLength(t[1..]) + 1
  }

  /** What str.splitlines leaves after the first line; CR LF is one break. */
  function AfterLine(t: Text): (rest: Text)
    requires t != []
    ensures |rest| < |t|
  {
    var n := LineLength(t);
    if n == |t| then []
    else if t[n] == 13 && n + 1 < |t| && t[n + 1] == 10 then t[n + 2..]
    else t[n + 1..]
  }

  predicate OneLine(t: Text) { forall k :: 0 <= k < |t| ==> !LineBreak(t[k]) }

  lemma LineLengthIs(t: Text, n: nat)
    requires n <= |t| && OneLine(t[..n]) && (n < |t| ==> LineBreak(t[n]))
    ensures LineLength(t) == n
  {
    var m := LineLength(t);
    assert forall k :: 0 <= k < n ==> t[..n][k] == t[k];
  }

  /** A line ended by LF is cut off whole. */
  lemma CutTerminated(line: Text, rest: Text)
    requires OneLine(line)
    ensures var t := line + [10] + rest; t[..LineLength(t)] == line && AfterLine(t) == rest
  {
    var t := line + [10] + rest;
    assert t[..|line|] == line && t[|line|] == 10;
    LineLengthIs(t, |line|);
    assert t[|line| + 1..] == rest;
  }
}
