/** The line-building half of `logf`: rendering one argument (`getValue`) and
    substituting the `%v` placeholders of a template in one forward pass. */
module Format {
  import opened Bytes

  /** A value passed to a log call, classified as getValue's type switch classifies it. */
  datatype Arg =
    | IntArg(value: int64)  // int, int8, int16, int32 or int64, widened to int64
    | StrArg(text: Bytes)   // a string, as its bytes
    | Other(repr: Bytes)    // any other type, with the text fmt's %v gives it

  const ARGS_NEEDED: Bytes := [97, 114, 103, 115, 32, 110, 101, 101, 100, 101, 100]
  const UNKNOWN_OPEN: Bytes := [40, 117, 110, 107, 110, 111, 119, 110, 32, 116, 121, 112, 101, 58, 32]
  const UNKNOWN_CLOSE: Bytes := [41]
  const PLACEHOLDER: Bytes := [PERCENT, LOWER_V]

  /** The fixed texts spelled out: the shortfall marker, the two halves of the
      diagnostic around a value of unknown type, and the placeholder. */
  lemma FixedTexts()
    ensures ARGS_NEEDED == Ascii("args needed")
    ensures UNKNOWN_OPEN == Ascii("(unknown type: ") && UNKNOWN_CLOSE == Ascii(")")
    ensures PLACEHOLDER == Ascii("%v")
  {
  }

  /** getValue (the type switch of log.go). */
  function GetValue(arg: Arg): (r: Bytes)
    ensures arg.IntArg? ==> IsCanonicalDecimal(r) && (r[0] == MINUS <==> arg.value < 0)
    ensures arg.Other? ==> |r| == |arg.repr| + 16 && r[..15] == UNKNOWN_OPEN && r[|r| - 1] == UNKNOWN_CLOSE[0]
  {
    match arg
    case IntArg(v) => FormatInt(v)
    case StrArg(s) => s
    case Other(repr) => UNKNOWN_OPEN + repr + UNKNOWN_CLOSE
  }

  /** Value rendering: an integer becomes canonical base-10 text that reads back as
      that integer, with a '-' exactly when it is negative; a string is its own bytes;
      anything else is the diagnostic form around its default text. */
  lemma GetValueRenders(arg: Arg)
    ensures arg.IntArg? ==> IsCanonicalDecimal(GetValue(arg)) && DecimalValue(GetValue(arg)) == arg.value as int
    ensures arg.IntArg? ==> (GetValue(arg)[0] == MINUS <==> arg.value < 0)
    ensures arg.StrArg? ==> GetValue(arg) == arg.text
    ensures arg.Other? ==> GetValue(arg) == UNKNOWN_OPEN + arg.repr + UNKNOWN_CLOSE
  {
    if arg.IntArg? {
      FormatIntRoundTrip(arg.value);
    }
  }

  /** The two bytes at k are `%` then `v`. */
  predicate PlaceholderAt(s: Bytes, k: int) {
    0 <= k && k + 1 < |s| && s[k] == PERCENT && s[k + 1] == LOWER_V
  }

  /** No placeholder starts anywhere in s. */
  predicate Literal(s: Bytes) {
    forall k :: 0 <= k < |s| ==> !PlaceholderAt(s, k)
  }

  /** The value placeholder number c receives: argument c while the arguments
      last, `args needed` after they have run out. */
  function ValueFor(args: seq<Arg>, c: nat): Bytes {
    if c < |args| then GetValue(args[c]) else ARGS_NEEDED
  }

  /** The rest of the message, scanning from byte i with c placeholders already
      seen: a placeholder takes the next value and the scan resumes after its `v`;
      any other byte is copied. */
  function RenderFrom(msg: Bytes, i: nat, args: seq<Arg>, c: nat): Bytes
    requires i <= |msg|
    decreases |msg| - i
  {
    if i == |msg| then []
    else if PlaceholderAt(msg, i) then ValueFor(args, c) + RenderFrom(msg, i + 2, args, c + 1)
    else [msg[i]] + RenderFrom(msg, i + 1, args, c)
  }

  /** The message part of a log line. */
  function Render(msg: Bytes, args: seq<Arg>): Bytes {
    RenderFrom(msg, 0, args, 0)
  }

  /** The number of placeholders the scan finds from byte i on. */
  function CountFrom(msg: Bytes, i: nat): (r: nat)
    requires i <= |msg|
    ensures 2 * r <= |msg| - i
    decreases |msg| - i
  {
    if i == |msg| then 0
    else if PlaceholderAt(msg, i) then 1 + CountFrom(msg, i + 2)
    else CountFrom(msg, i + 1)
  }

  /** The number of placeholders in the template; each takes two of its bytes. */
  function PlaceholderCount(msg: Bytes): (r: nat)
    ensures 2 * r <= |msg|
  {
    CountFrom(msg, 0)
  }

  function Min(a: int, b: int): int {
    if a <= b then a else b
  }

  /** The literal pieces between the placeholders the scan finds from byte i on. */
  function SegmentsFrom(msg: Bytes, i: nat): (r: seq<Bytes>)
    requires i <= |msg|
    ensures |r| >= 1
    decreases |msg| - i
  {
    if i == |msg| then [[]]
    else if PlaceholderAt(msg, i) then [[]] + SegmentsFrom(msg, i + 2)
    else
      var t := SegmentsFrom(msg, i + 1);
      [[msg[i]] + t[0]] + t[1..]
  }

  function Segments(msg: Bytes): seq<Bytes> {
    SegmentsFrom(msg, 0)
  }

  /** The template with the given literal pieces: the pieces with `%v` between them. */
  function Join(chunks: seq<Bytes>): Bytes
    requires |chunks| >= 1
    decreases |chunks|
  {
    if |chunks| == 1 then chunks[0] else chunks[0] + PLACEHOLDER + Join(chunks[1..])
  }

  /** The literal pieces with the values between them, in order. */
  function Weave(chunks: seq<Bytes>, values: seq<Bytes>): Bytes
    requires |chunks| == |values| + 1
    decreases |values|
  {
    if values == [] then chunks[0] else chunks[0] + values[0] + Weave(chunks[1..], values[1..])
  }

  /** The values of n placeholders numbered from c. */
  function Fill(args: seq<Arg>, c: nat, n: nat): seq<Bytes> {
    seq(n, k requires 0 <= k < n => ValueFor(args, c + k))
  }

  /** Skipping a stretch of the template where no placeholder starts copies that stretch. */
  lemma {:induction false} SkipLiteral(msg: Bytes, i: nat, j: nat, args: seq<Arg>, c: nat)
    requires i <= j <= |msg|
    requires forall k :: i <= k < j ==> !PlaceholderAt(msg, k)
    ensures RenderFrom(msg, i, args, c) == msg[i..j] + RenderFrom(msg, j, args, c)
    decreases j - i
  {
    if i == j {
      assert msg[i..j] == [];
    } else {
      SkipLiteral(msg, i + 1, j, args, c);
      SkipStep(msg, i, j, args, c);
    }
  }

  lemma SkipStep(msg: Bytes, i: nat, j: nat, args: seq<Arg>, c: nat)
    requires i < j <= |msg| && !PlaceholderAt(msg, i)
    requires RenderFrom(msg, i + 1, args, c) == msg[i + 1..j] + RenderFrom(msg, j, args, c)
    ensures RenderFrom(msg, i, args, c) == msg[i..j] + RenderFrom(msg, j, args, c)
  {
    var r := RenderFrom(msg, j, args, c);
    assert RenderFrom(msg, i, args, c) == [msg[i]] + (msg[i + 1..j] + r);
    assert msg[i..j] == [msg[i]] + msg[i + 1..j];
    Assoc([msg[i]], msg[i + 1..j], r);
  }

  lemma Assoc(a: Bytes, b: Bytes, c: Bytes)
    ensures a + (b + c) == (a + b) + c
  {
  }

  /** Such a stretch holds no placeholder to count. */
  lemma {:induction false} SkipLiteralCount(msg: Bytes, i: nat, j: nat)
    requires i <= j <= |msg|
    requires forall k :: i <= k < j ==> !PlaceholderAt(msg, k)
    ensures CountFrom(msg, i) == CountFrom(msg, j)
    decreases j - i
  {
    if i < j {
      assert !PlaceholderAt(msg, i);
      SkipLiteralCount(msg, i + 1, j);
    }
  }

  /** One step of the scan: a literal stretch up to a placeholder is copied, then the
      placeholder takes value number c and the scan resumes after its `v`. */
  lemma ScanStep(msg: Bytes, i: nat, j: nat, args: seq<Arg>, c: nat)
    requires i <= j <= |msg| && PlaceholderAt(msg, j)
    requires forall k :: i <= k < j ==> !PlaceholderAt(msg, k)
    ensures RenderFrom(msg, i, args, c) == msg[i..j] + (ValueFor(args, c) + RenderFrom(msg, j + 2, args, c + 1))
  {
    SkipLiteral(msg, i, j, args, c);
  }

  /** The same step counts one placeholder. */
  lemma ScanStepCount(msg: Bytes, i: nat, j: nat)
    requires i <= j <= |msg| && PlaceholderAt(msg, j)
    requires forall k :: i <= k < j ==> !PlaceholderAt(msg, k)
    ensures CountFrom(msg, i) == 1 + CountFrom(msg, j + 2)
  {
    SkipLiteralCount(msg, i, j);
  }

  /** Literal copying: a template with no placeholder renders as itself, whatever the arguments. */
  lemma RenderLiteral(msg: Bytes, args: seq<Arg>)
    requires Literal(msg)
    ensures Render(msg, args) == msg
    ensures PlaceholderCount(msg) == 0
  {
    SkipLiteral(msg, 0, |msg|, args, 0);
    SkipLiteralCount(msg, 0, |msg|);
    assert msg[0..|msg|] == msg;
  }

  lemma WeaveHead(chunks: seq<Bytes>, values: seq<Bytes>)
    requires |chunks| == |values| + 1 && values != []
    ensures Weave(chunks, values) == chunks[0] + values[0] + Weave(chunks[1..], values[1..])
  {
  }

  /** Prefixing a byte to the first literal piece prefixes it to the whole weave. */
  lemma WeavePrefix(b: byte, chunks: seq<Bytes>, values: seq<Bytes>)
    requires |chunks| == |values| + 1
    ensures Weave([[b] + chunks[0]] + chunks[1..], values) == [b] + Weave(chunks, values)
  {
    var c := [[b] + chunks[0]] + chunks[1..];
    assert c[1..] == chunks[1..];
    if values != [] {
      WeaveHead(c, values);
      WeaveHead(chunks, values);
    }
  }

  lemma FillStep(args: seq<Arg>, c: nat, n: nat)
    ensures Fill(args, c, n + 1) == [ValueFor(args, c)] + Fill(args, c + 1, n)
  {
    var l, r := Fill(args, c, n + 1), [ValueFor(args, c)] + Fill(args, c + 1, n);
    forall k | 0 <= k < n + 1
      ensures l[k] == r[k]
    {
      if k > 0 {
        assert r[k] == Fill(args, c + 1, n)[k - 1];
      }
    }
  }

  /** There is one more literal piece than there are placeholders. */
  lemma {:induction false} SegmentsCount(msg: Bytes, i: nat)
    requires i <= |msg|
    ensures |SegmentsFrom(msg, i)| == CountFrom(msg, i) + 1
    decreases |msg| - i
  {
    if i < |msg| {
      if PlaceholderAt(msg, i) {
        SegmentsCount(msg, i + 2);
      } else {
        SegmentsCount(msg, i + 1);
      }
    }
  }

  /** A weave whose first piece is empty starts with the first value. */
  lemma WeaveEmptyHead(rest: seq<Bytes>, v: Bytes, values: seq<Bytes>)
    requires |rest| == |values| + 1
    ensures Weave([[]] + rest, [v] + values) == v + Weave(rest, values)
  {
    var chunks, vs := [[]] + rest, [v] + values;
    assert chunks[1..] == rest;
    assert vs[1..] == values;
    WeaveHead(chunks, vs);
  }

  /** Ordered substitution: from byte i on, the rendering is the literal pieces, in
      order, with the k-th placeholder replaced by the value of placeholder c + k:
      argument c + k while arguments last, `args needed` after. */
  lemma {:induction false} RenderFromIsWeave(msg: Bytes, i: nat, args: seq<Arg>, c: nat)
    requires i <= |msg|
    ensures var chunks := SegmentsFrom(msg, i);
      RenderFrom(msg, i, args, c) == Weave(chunks, Fill(args, c, |chunks| - 1))
    decreases |msg| - i
  {
    if i == |msg| {
    } else if PlaceholderAt(msg, i) {
      RenderFromIsWeave(msg, i + 2, args, c + 1);
      WeaveStepPlaceholder(msg, i, args, c);
    } else {
      RenderFromIsWeave(msg, i + 1, args, c);
      WeaveStepLiteral(msg, i, args, c);
    }
  }

  lemma WeaveStepPlaceholder(msg: Bytes, i: nat, args: seq<Arg>, c: nat)
    requires PlaceholderAt(msg, i)
    requires var rest := SegmentsFrom(msg, i + 2);
      RenderFrom(msg, i + 2, args, c + 1) == Weave(rest, Fill(args, c + 1, |rest| - 1))
    ensures var chunks := SegmentsFrom(msg, i);
      RenderFrom(msg, i, args, c) == Weave(chunks, Fill(args, c, |chunks| - 1))
  {
    var rest := SegmentsFrom(msg, i + 2);
    var n := |rest| - 1;
    FillStep(args, c, n);
    WeaveEmptyHead(rest, ValueFor(args, c), Fill(args, c + 1, n));
  }

  lemma WeaveStepLiteral(msg: Bytes, i: nat, args: seq<Arg>, c: nat)
    requires i < |msg| && !PlaceholderAt(msg, i)
    requires var t := SegmentsFrom(msg, i + 1);
      RenderFrom(msg, i + 1, args, c) == Weave(t, Fill(args, c, |t| - 1))
    ensures var chunks := SegmentsFrom(msg, i);
      RenderFrom(msg, i, args, c) == Weave(chunks, Fill(args, c, |chunks| - 1))
  {
    var t := SegmentsFrom(msg, i + 1);
    WeavePrefix(msg[i], t, Fill(args, c, |t| - 1));
  }

  /** Ordered substitution for a whole template: its literal pieces with the k-th
      placeholder replaced by argument k while arguments last, then `args needed`. */
  lemma RenderIsWeave(msg: Bytes, args: seq<Arg>)
    ensures |Segments(msg)| == PlaceholderCount(msg) + 1
    ensures Render(msg, args) == Weave(Segments(msg), Fill(args, 0, PlaceholderCount(msg)))
  {
    SegmentsCount(msg, 0);
    RenderFromIsWeave(msg, 0, args, 0);
  }

  /** Two argument lists that give the same value to every placeholder give the same message. */
  lemma {:induction false} RenderAgree(msg: Bytes, i: nat, a1: seq<Arg>, a2: seq<Arg>, c: nat)
    requires i <= |msg|
    requires forall k :: c <= k < c + CountFrom(msg, i) ==> ValueFor(a1, k) == ValueFor(a2, k)
    ensures RenderFrom(msg, i, a1, c) == RenderFrom(msg, i, a2, c)
    decreases |msg| - i
  {
    if i == |msg| {
    } else if PlaceholderAt(msg, i) {
      RenderAgree(msg, i + 2, a1, a2, c + 1);
    } else {
      RenderAgree(msg, i + 1, a1, a2, c);
    }
  }

  /** Argument surplus: once there are enough arguments for every placeholder,
      more arguments change nothing. */
  lemma RenderSurplus(msg: Bytes, args: seq<Arg>, extra: seq<Arg>)
    requires |args| >= PlaceholderCount(msg)
    ensures Render(msg, args + extra) == Render(msg, args)
  {
    forall k | 0 <= k < PlaceholderCount(msg)
      ensures ValueFor(args + extra, k) == ValueFor(args, k)
    {
      assert (args + extra)[k] == args[k];
    }
    RenderAgree(msg, 0, args + extra, args, 0);
  }

  /** Argument consumption: only the first min(#placeholders, #arguments) arguments are used. */
  lemma RenderUsesConsumed(msg: Bytes, args: seq<Arg>)
    ensures Render(msg, args) == Render(msg, args[..Min(PlaceholderCount(msg), |args|)])
  {
    var used := args[..Min(PlaceholderCount(msg), |args|)];
    forall k | 0 <= k < PlaceholderCount(msg)
      ensures ValueFor(args, k) == ValueFor(used, k)
    {
      if k < |args| {
        assert used[k] == args[k];
      }
    }
    RenderAgree(msg, 0, args, used, 0);
  }

  /** Argument shortfall: with no arguments, every placeholder renders as `args needed`. */
  lemma RenderShortfall(msg: Bytes)
    ensures |Segments(msg)| == PlaceholderCount(msg) + 1
    ensures Render(msg, []) == Weave(Segments(msg), seq(PlaceholderCount(msg), _ => ARGS_NEEDED))
  {
    RenderIsWeave(msg, []);
    assert Fill([], 0, PlaceholderCount(msg)) == seq(PlaceholderCount(msg), _ => ARGS_NEEDED);
  }

  /** A `%` that is the last byte or is not followed by `v` is copied as it is. */
  lemma RenderLonePercent(msg: Bytes, i: nat, args: seq<Arg>, c: nat)
    requires i < |msg| && msg[i] == PERCENT && (i + 1 == |msg| || msg[i + 1] != LOWER_V)
    ensures RenderFrom(msg, i, args, c) == [PERCENT] + RenderFrom(msg, i + 1, args, c)
  {
  }

  /** `%%v` is a literal `%` and then one value. */
  lemma RenderPercentPlaceholder(msg: Bytes, i: nat, args: seq<Arg>, c: nat)
    requires i < |msg| && msg[i] == PERCENT && PlaceholderAt(msg, i + 1)
    ensures RenderFrom(msg, i, args, c) == [PERCENT] + ValueFor(args, c) + RenderFrom(msg, i + 3, args, c + 1)
  {
    assert !PlaceholderAt(msg, i);
  }

  /** `%v%v` is two placeholders, taking two values in order. */
  lemma RenderTwoPlaceholders(msg: Bytes, i: nat, args: seq<Arg>, c: nat)
    requires PlaceholderAt(msg, i) && PlaceholderAt(msg, i + 2)
    ensures RenderFrom(msg, i, args, c)
         == ValueFor(args, c) + ValueFor(args, c + 1) + RenderFrom(msg, i + 4, args, c + 2)
    ensures CountFrom(msg, i) == 2 + CountFrom(msg, i + 4)
  {
  }

  /** Joining the literal pieces back with `%v` gives the template (the pieces lose nothing). */
  lemma {:induction false} JoinSegmentsFrom(msg: Bytes, i: nat)
    requires i <= |msg|
    ensures Join(SegmentsFrom(msg, i)) == msg[i..]
    decreases |msg| - i
  {
    if i == |msg| {
    } else if PlaceholderAt(msg, i) {
      JoinSegmentsFrom(msg, i + 2);
      JoinStepPlaceholder(msg, i);
    } else {
      JoinSegmentsFrom(msg, i + 1);
      JoinStepLiteral(msg, i);
    }
  }

  lemma JoinStepPlaceholder(msg: Bytes, i: nat)
    requires PlaceholderAt(msg, i)
    requires Join(SegmentsFrom(msg, i + 2)) == msg[i + 2..]
    ensures Join(SegmentsFrom(msg, i)) == msg[i..]
  {
    var chunks := SegmentsFrom(msg, i);
    assert chunks[1..] == SegmentsFrom(msg, i + 2);
    assert msg[i..] == PLACEHOLDER + msg[i + 2..];
  }

  lemma JoinStepLiteral(msg: Bytes, i: nat)
    requires i < |msg| && !PlaceholderAt(msg, i)
    requires Join(SegmentsFrom(msg, i + 1)) == msg[i + 1..]
    ensures Join(SegmentsFrom(msg, i)) == msg[i..]
  {
    JoinPrefix(msg[i], SegmentsFrom(msg, i + 1));
    assert msg[i..] == [msg[i]] + msg[i + 1..];
  }

  lemma JoinCons(a: Bytes, rest: seq<Bytes>)
    requires |rest| >= 1
    ensures Join([a] + rest) == a + PLACEHOLDER + Join(rest)
  {
    assert ([a] + rest)[1..] == rest;
  }

  lemma JoinPrefix2(b: byte, first: Bytes, rest: seq<Bytes>)
    ensures Join([[b] + first] + rest) == [b] + Join([first] + rest)
  {
    if rest != [] {
      JoinCons([b] + first, rest);
      JoinCons(first, rest);
    }
  }

  lemma JoinPrefix(b: byte, chunks: seq<Bytes>)
    requires |chunks| >= 1
    ensures Join([[b] + chunks[0]] + chunks[1..]) == [b] + Join(chunks)
  {
    JoinPrefix2(b, chunks[0], chunks[1..]);
    assert [chunks[0]] + chunks[1..] == chunks;
  }

  lemma JoinSegments(msg: Bytes)
    ensures Join(Segments(msg)) == msg
  {
    JoinSegmentsFrom(msg, 0);
  }

  lemma JoinStartsWithFirst(chunks: seq<Bytes>)
    requires |chunks| >= 1
    ensures |chunks[0]| <= |Join(chunks)| && Join(chunks)[..|chunks[0]|] == chunks[0]
  {
  }

  /** No literal piece contains a placeholder. */
  lemma {:induction false} SegmentsFromAreLiteral(msg: Bytes, i: nat)
    requires i <= |msg|
    ensures forall c :: c in SegmentsFrom(msg, i) ==> Literal(c)
    decreases |msg| - i
  {
    if i == |msg| {
    } else if PlaceholderAt(msg, i) {
      SegmentsFromAreLiteral(msg, i + 2);
      assert SegmentsFrom(msg, i)[1..] == SegmentsFrom(msg, i + 2);
    } else {
      SegmentsFromAreLiteral(msg, i + 1);
      AreLiteralStep(msg, i);
    }
  }

  lemma AreLiteralStep(msg: Bytes, i: nat)
    requires i < |msg| && !PlaceholderAt(msg, i)
    requires forall c :: c in SegmentsFrom(msg, i + 1) ==> Literal(c)
    ensures forall c :: c in SegmentsFrom(msg, i) ==> Literal(c)
  {
    var t := SegmentsFrom(msg, i + 1);
    JoinSegmentsFrom(msg, i + 1);
    JoinStartsWithFirst(t);
    var c := [msg[i]] + t[0];
    assert t[0] in t;
    assert Literal(t[0]);
    forall k | 0 <= k < |c|
      ensures !PlaceholderAt(c, k)
    {
      if k > 0 {
        assert !PlaceholderAt(t[0], k - 1);
      } else if |c| > 1 {
        assert c[1] == msg[i + 1];
      }
    }
    assert SegmentsFrom(msg, i)[1..] == t[1..];
  }

  lemma SegmentsAreLiteral(msg: Bytes)
    ensures forall c :: c in Segments(msg) ==> Literal(c)
  {
    SegmentsFromAreLiteral(msg, 0);
  }

  /** The scan from byte |p| + i of p + s sees what the scan from byte i of s sees. */
  lemma {:induction false} SegmentsShift(p: Bytes, s: Bytes, i: nat)
    requires i <= |s|
    ensures SegmentsFrom(p + s, |p| + i) == SegmentsFrom(s, i)
    decreases |s| - i
  {
    if i == |s| {
      assert |p| + i == |p + s|;
    } else if PlaceholderAt(s, i) {
      SegmentsShift(p, s, i + 2);
      ShiftPlaceholder(p, s, i);
    } else {
      SegmentsShift(p, s, i + 1);
      ShiftLiteral(p, s, i);
    }
  }

  lemma PlaceholderShift(p: Bytes, s: Bytes, i: nat)
    requires i < |s|
    ensures PlaceholderAt(p + s, |p| + i) == PlaceholderAt(s, i)
  {
    var m := p + s;
    assert m[|p| + i] == s[i];
    assert |p| + i + 1 < |m| ==> m[|p| + i + 1] == s[i + 1];
  }

  lemma ShiftPlaceholder(p: Bytes, s: Bytes, i: nat)
    requires i < |s| && PlaceholderAt(s, i)
    requires SegmentsFrom(p + s, |p| + (i + 2)) == SegmentsFrom(s, i + 2)
    ensures SegmentsFrom(p + s, |p| + i) == SegmentsFrom(s, i)
  {
    PlaceholderShift(p, s, i);
  }

  lemma ShiftLiteral(p: Bytes, s: Bytes, i: nat)
    requires i < |s| && !PlaceholderAt(s, i)
    requires SegmentsFrom(p + s, |p| + (i + 1)) == SegmentsFrom(s, i + 1)
    ensures SegmentsFrom(p + s, |p| + i) == SegmentsFrom(s, i)
  {
    PlaceholderShift(p, s, i);
    assert (p + s)[|p| + i] == s[i];
  }

  lemma {:induction false} SegmentsFromLiteral(c: Bytes, i: nat)
    requires Literal(c) && i <= |c|
    ensures SegmentsFrom(c, i) == [c[i..]]
    decreases |c| - i
  {
    if i == |c| {
      assert c[i..] == [];
    } else {
      SegmentsFromLiteral(c, i + 1);
      LiteralStep(c, i);
    }
  }

  lemma LiteralStep(c: Bytes, i: nat)
    requires Literal(c) && i < |c|
    requires SegmentsFrom(c, i + 1) == [c[i + 1..]]
    ensures SegmentsFrom(c, i) == [c[i..]]
  {
    assert !PlaceholderAt(c, i);
    assert c[i..] == [c[i]] + c[i + 1..];
  }

  /** A literal piece followed by `%v` is the first piece the scan finds. */
  lemma {:induction false} SegmentsOfPiece(c: Bytes, tail: Bytes, i: nat)
    requires Literal(c) && i <= |c|
    ensures SegmentsFrom(c + PLACEHOLDER + tail, i) == [c[i..]] + Segments(tail)
    decreases |c| - i
  {
    if i == |c| {
      PieceEnd(c, tail);
    } else {
      SegmentsOfPiece(c, tail, i + 1);
      PieceStep(c, tail, i);
    }
  }

  lemma PieceEnd(c: Bytes, tail: Bytes)
    ensures SegmentsFrom(c + PLACEHOLDER + tail, |c|) == [c[|c|..]] + Segments(tail)
  {
    var m := c + PLACEHOLDER + tail;
    assert PlaceholderAt(m, |c|);
    assert SegmentsFrom(m, |c|) == [[]] + SegmentsFrom(m, |c| + 2);
    assert m == (c + PLACEHOLDER) + tail && |c + PLACEHOLDER| + 0 == |c| + 2;
    SegmentsShift(c + PLACEHOLDER, tail, 0);
    assert c[|c|..] == [];
  }

  lemma PieceStep(c: Bytes, tail: Bytes, i: nat)
    requires Literal(c) && i < |c|
    requires SegmentsFrom(c + PLACEHOLDER + tail, i + 1) == [c[i + 1..]] + Segments(tail)
    ensures SegmentsFrom(c + PLACEHOLDER + tail, i) == [c[i..]] + Segments(tail)
  {
    var m := c + PLACEHOLDER + tail;
    assert !PlaceholderAt(m, i) by {
      if i + 1 < |c| {
        assert !PlaceholderAt(c, i);
      } else {
        assert m[i + 1] == PERCENT;
      }
    }
    assert m[i] == c[i];
    assert c[i..] == [c[i]] + c[i + 1..];
  }

  /** The converse of JoinSegments: pieces with no placeholder in them, joined with `%v`,
      are exactly the pieces the scan finds again. */
  lemma {:induction false} SegmentsOfJoin(chunks: seq<Bytes>)
    requires |chunks| >= 1
    requires forall c :: c in chunks ==> Literal(c)
    ensures Segments(Join(chunks)) == chunks
    decreases |chunks|
  {
    assert chunks[0] in chunks;
    if |chunks| == 1 {
      SegmentsFromLiteral(chunks[0], 0);
      assert chunks[0][0..] == chunks[0];
    } else {
      assert forall c :: c in chunks[1..] ==> c in chunks;
      SegmentsOfJoin(chunks[1..]);
      SegmentsOfPiece(chunks[0], Join(chunks[1..]), 0);
      assert chunks[0][0..] == chunks[0];
      assert chunks == [chunks[0]] + chunks[1..];
    }
  }

  predicate ArgNoNewline(a: Arg) {
    match a
    case IntArg(_) => true
    case StrArg(s) => NoNewline(s)
    case Other(repr) => NoNewline(repr)
  }

  lemma GetValueNoNewline(a: Arg)
    requires ArgNoNewline(a)
    ensures NoNewline(GetValue(a))
  {
    match a
    case IntArg(v) =>
      var r := GetValue(a);
      forall k | 0 <= k < |r|
        ensures r[k] == MINUS || IsDigit(r[k])
      {
        if r[0] == MINUS && k > 0 {
          assert r[k] == r[1..][k - 1];
        }
      }
    case StrArg(_) =>
    case Other(_) =>
  }

  lemma NoNewlineConcat(a: Bytes, b: Bytes)
    requires NoNewline(a) && NoNewline(b)
    ensures NoNewline(a + b)
  {
    forall k | 0 <= k < |a + b|
      ensures (a + b)[k] != NEWLINE
    {
      if k >= |a| {
        assert (a + b)[k] == b[k - |a|];
      }
    }
  }

  /** Rendering adds no line break that the template or an argument did not bring. */
  lemma {:induction false} RenderFromNoNewline(msg: Bytes, i: nat, args: seq<Arg>, c: nat)
    requires i <= |msg| && NoNewline(msg)
    requires forall a :: a in args ==> ArgNoNewline(a)
    ensures NoNewline(RenderFrom(msg, i, args, c))
    decreases |msg| - i
  {
    if i == |msg| {
    } else if PlaceholderAt(msg, i) {
      if c < |args| {
        assert args[c] in args;
        GetValueNoNewline(args[c]);
      }
      RenderFromNoNewline(msg, i + 2, args, c + 1);
      NoNewlineConcat(ValueFor(args, c), RenderFrom(msg, i + 2, args, c + 1));
    } else {
      RenderFromNoNewline(msg, i + 1, args, c);
      NoNewlineConcat([msg[i]], RenderFrom(msg, i + 1, args, c));
    }
  }

  /** `a=%v b=%v` with arguments 1, "x", 99 renders as `a=1 b=x`: 99 is dropped. */
  lemma ExampleSurplus()
    ensures Render(Ascii("a=%v b=%v"), [IntArg(1), StrArg(Ascii("x")), IntArg(99)]) == Ascii("a=1 b=x")
  {
    assert Ascii("a=%v b=%v") == [97, 61, 37, 118, 32, 98, 61, 37, 118];
    assert Ascii("x") == [120];
    assert Ascii("a=1 b=x") == [97, 61, 49, 32, 98, 61, 120];
    SurplusBytes();
  }

  lemma SurplusBytes()
    ensures Render([97, 61, 37, 118, 32, 98, 61, 37, 118], [IntArg(1), StrArg([120]), IntArg(99)])
         == [97, 61, 49, 32, 98, 61, 120]
  {
    var msg: Bytes := [97, 61, 37, 118, 32, 98, 61, 37, 118];
    var args := [IntArg(1), StrArg([120]), IntArg(99)];
    assert ValueFor(args, 0) == [49] by {
      assert FormatInt(1) == [49];
    }
    var tail := RenderFrom(msg, 7, args, 1);
    assert tail == [120] by {
      assert RenderFrom(msg, 9, args, 2) == [];
    }
    SkipLiteral(msg, 4, 7, args, 1);
    var mid := RenderFrom(msg, 2, args, 0);
    assert mid == [49] + msg[4..7] + tail;
    SkipLiteral(msg, 0, 2, args, 0);
    assert Render(msg, args) == msg[0..2] + mid;
  }

  /** `val=%v` with no arguments renders as `val=args needed`. */
  lemma ExampleShortfall()
    ensures Render(Ascii("val=%v"), []) == Ascii("val=args needed")
  {
    assert Ascii("val=%v") == [118, 97, 108, 61, 37, 118];
    assert Ascii("val=args needed") == [118, 97, 108, 61] + ARGS_NEEDED;
    ShortfallBytes();
  }

  lemma ShortfallBytes()
    ensures Render([118, 97, 108, 61, 37, 118], []) == [118, 97, 108, 61] + ARGS_NEEDED
  {
    var msg: Bytes := [118, 97, 108, 61, 37, 118];
    assert RenderFrom(msg, 4, [], 0) == ARGS_NEEDED by {
      assert RenderFrom(msg, 6, [], 1) == [];
    }
    SkipLiteral(msg, 0, 4, [], 0);
    assert Render(msg, []) == msg[0..4] + ARGS_NEEDED;
  }
}
