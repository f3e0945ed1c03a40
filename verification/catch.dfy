/**
 The top-level handler for an uncaught runtime error: a header line, the
 literal `Stack trace:` line, then one line per recorded frame, most
 recently entered frame first. Output is returned as lines; the in-place
 reversal of the frame stack is returned as the stack's post-state.
 */
module Catch {
  import Decimal

  /** One tracked invocation: the callee's name and its call site. */
  datatype Frame = Frame(name: string, row: int, col: int)

  /** A failure raised at a source position. */
  datatype RuntimeError = RuntimeError(row: int, col: int, message: string)

  const TraceTitle: string := "Stack trace:"

  /** A template literal: its literal pieces and substitutions, joined in order. */
  function Concat(parts: seq<string>): (s: string)
  {
    if parts == [] then "" else parts[0] + Concat(parts[1..])
  }

  /** `[row:col]Runtime Error: message` (no space after the bracket). */
  function Header(e: RuntimeError): (line: string)
  {
    Concat(["[", Decimal.IntToString(e.row), ":", Decimal.IntToString(e.col), "]Runtime Error: ", e.message])
  }

  /** `  [row:col] > name` (two leading spaces). */
  function FrameLine(f: Frame): (line: string)
  {
    Concat(["  [", Decimal.IntToString(f.row), ":", Decimal.IntToString(f.col), "] > ", f.name])
  }

  /** `Array.prototype.reverse` on a sequence. */
  function Reverse<T>(s: seq<T>): (r: seq<T>)
    ensures |r| == |s|
    ensures forall i :: 0 <= i < |s| ==> r[i] == s[|s| - 1 - i]
  {
    if s == [] then [] else Reverse(s[1..]) + [s[0]]
  }

  lemma ReverseInvolution<T>(s: seq<T>)
    ensures Reverse(Reverse(s)) == s
  {
  }

  /** Reversal keeps exactly the same frames, each as often as before. */
  lemma {:induction false} ReversePermutes<T>(s: seq<T>)
    ensures multiset(Reverse(s)) == multiset(s)
  {
    if s != [] {
      ReversePermutes(s[1..]);
      assert s == [s[0]] + s[1..];
    }
  }

  /** The frame lines of a stack already in display order. */
  function FrameLines(frames: seq<Frame>): (lines: seq<string>)
  {
    seq(|frames|, k requires 0 <= k < |frames| => FrameLine(frames[k]))
  }

  /** The diagnostic block for `err` given the recorded frame stack. */
  function Report(err: RuntimeError, stack: seq<Frame>): (lines: seq<string>)
    ensures |lines| == 2 + |stack|
    ensures lines[0] == Header(err)
    ensures lines[1] == TraceTitle
    ensures forall k :: 2 <= k < |lines| ==> lines[k] == FrameLine(stack[|lines| - 1 - k])
  {
    [Header(err), TraceTitle] + FrameLines(Reverse(stack))
  }

  /**
   The handler as the host runs it: print the header and the title, reverse
   the stack in place, print one line per entry of the reversed stack.
   `stackAfter` is the stack's value once the handler has run.
   */
  method ReportUncaught(err: RuntimeError, stack: seq<Frame>)
    returns (lines: seq<string>, stackAfter: seq<Frame>)
    ensures lines == Report(err, stack)
    ensures stackAfter == Reverse(stack)
    ensures multiset(stackAfter) == multiset(stack)
  {
    lines := [Header(err), TraceTitle];
    stackAfter := Reverse(stack);
    ReversePermutes(stack);
    var i := 0;
    while i < |stackAfter|
      invariant 0 <= i <= |stackAfter|
      invariant lines == [Header(err), TraceTitle] + FrameLines(stackAfter[..i])
    {
      ExtendLines([Header(err), TraceTitle], stackAfter, i);
      lines := lines + [FrameLine(stackAfter[i])];
      i := i + 1;
    }
    assert stackAfter[..i] == stackAfter;
  }

  /** One more iteration of the handler's loop prints the next frame's line. */
  lemma ExtendLines(head: seq<string>, frames: seq<Frame>, i: nat)
    requires i < |frames|
    ensures head + FrameLines(frames[..i]) + [FrameLine(frames[i])] == head + FrameLines(frames[..i + 1])
  {
  }

  /** The most recently pushed element comes out of `reverse` first. */
  lemma ReverseOfPush<T>(s: seq<T>, x: T)
    ensures Reverse(s + [x]) == [x] + Reverse(s)
  {
  }

  /** Pushing a frame puts its line first in the trace and shifts the rest down. */
  lemma ReportAfterPush(err: RuntimeError, stack: seq<Frame>, f: Frame)
    ensures Report(err, stack + [f]) ==
            Report(err, stack)[..2] + [FrameLine(f)] + Report(err, stack)[2..]
  {
  }

  /** Text before the first `sep`, and text after it. */
  function Before(s: string, sep: char): (head: string)
  {
    if s == [] then [] else if s[0] == sep then [] else [s[0]] + Before(s[1..], sep)
  }

  function After(s: string, sep: char): (tail: string)
  {
    if s == [] then [] else if s[0] == sep then s[1..] else After(s[1..], sep)
  }

  /** Splitting at a separator the head does not contain recovers head and tail. */
  lemma {:induction false} SplitAtSeparator(head: string, sep: char, tail: string)
    requires sep !in head
    ensures Before(head + ([sep] + tail), sep) == head
    ensures After(head + ([sep] + tail), sep) == tail
  {
    var s := head + ([sep] + tail);
    if head != [] {
      assert s[0] == head[0];
      assert s[1..] == head[1..] + ([sep] + tail);
      SplitAtSeparator(head[1..], sep, tail);
    }
  }

  /** Equal texts with a common prefix agree after it. */
  lemma DropCommonPrefix(prefix: string, a: string, b: string)
    requires prefix + a == prefix + b
    ensures a == b
  {
    assert a == (prefix + a)[|prefix|..];
    assert b == (prefix + b)[|prefix|..];
  }

  lemma NumberHasNoSeparator(i: int, sep: char)
    requires sep == ':' || sep == ']'
    ensures sep !in Decimal.IntToString(i)
  {
    Decimal.IntToStringShape(i);
  }

  /** The six pieces of a rendered line, joined. */
  lemma {:induction false} ConcatSix(a: string, b: string, c: string, d: string, e: string, f: string)
    ensures Concat([a, b, c, d, e, f]) == a + (b + (c + (d + (e + f))))
  {
    assert Concat([f]) == f by {
      assert [f][1..] == [];
    }
    assert Concat([e, f]) == e + f by {
      assert [e, f][1..] == [f];
    }
    assert Concat([d, e, f]) == d + (e + f) by {
      assert [d, e, f][1..] == [e, f];
    }
    assert Concat([c, d, e, f]) == c + (d + (e + f)) by {
      assert [c, d, e, f][1..] == [d, e, f];
    }
    assert Concat([b, c, d, e, f]) == b + (c + (d + (e + f))) by {
      assert [b, c, d, e, f][1..] == [c, d, e, f];
    }
    assert [a, b, c, d, e, f][1..] == [b, c, d, e, f];
  }

  /**
   A line `open + row + ":" + col + close + rest`, where `close` starts
   with `]`, determines its row, its column and its rest.
   */
  lemma PositionedLineInjective(open: string, close: string,
                                r1: int, c1: int, t1: string, r2: int, c2: int, t2: string)
    requires |close| >= 1 && close[0] == ']'
    requires Concat([open, Decimal.IntToString(r1), ":", Decimal.IntToString(c1), close, t1]) ==
             Concat([open, Decimal.IntToString(r2), ":", Decimal.IntToString(c2), close, t2])
    ensures r1 == r2 && c1 == c2 && t1 == t2
  {
    var row1, col1 := Decimal.IntToString(r1), Decimal.IntToString(c1);
    var row2, col2 := Decimal.IntToString(r2), Decimal.IntToString(c2);
    ConcatSix(open, row1, ":", col1, close, t1);
    ConcatSix(open, row2, ":", col2, close, t2);
    NumberHasNoSeparator(r1, ':');
    NumberHasNoSeparator(r2, ':');
    NumberHasNoSeparator(c1, ']');
    NumberHasNoSeparator(c2, ']');
    DropCommonPrefix(open, row1 + (":" + (col1 + (close + t1))), row2 + (":" + (col2 + (close + t2))));
    SplitAtSeparator(row1, ':', col1 + (close + t1));
    SplitAtSeparator(row2, ':', col2 + (close + t2));
    assert close == [']'] + close[1..];
    assert close + t1 == [']'] + (close[1..] + t1);
    assert close + t2 == [']'] + (close[1..] + t2);
    SplitAtSeparator(col1, ']', close[1..] + t1);
    SplitAtSeparator(col2, ']', close[1..] + t2);
    DropCommonPrefix(close[1..], t1, t2);
    Decimal.IntToStringInjective(r1, r2);
    Decimal.IntToStringInjective(c1, c2);
  }

  /** The header is `[row:col]Runtime Error: message`, with no space after `]`. */
  lemma HeaderFormat(e: RuntimeError)
    ensures Header(e) == "[" + Decimal.IntToString(e.row) + ":" + Decimal.IntToString(e.col) +
                         "]Runtime Error: " + e.message
  {
    ConcatSix("[", Decimal.IntToString(e.row), ":", Decimal.IntToString(e.col), "]Runtime Error: ", e.message);
  }

  /** A frame line is `  [row:col] > name`, with two leading spaces. */
  lemma FrameLineFormat(f: Frame)
    ensures FrameLine(f) == "  [" + Decimal.IntToString(f.row) + ":" + Decimal.IntToString(f.col) +
                            "] > " + f.name
  {
    ConcatSix("  [", Decimal.IntToString(f.row), ":", Decimal.IntToString(f.col), "] > ", f.name);
  }

  /** The header names exactly one error. */
  lemma HeaderInjective(e1: RuntimeError, e2: RuntimeError)
    requires Header(e1) == Header(e2)
    ensures e1 == e2
  {
    PositionedLineInjective("[", "]Runtime Error: ", e1.row, e1.col, e1.message, e2.row, e2.col, e2.message);
  }

  /** A frame line names exactly one frame. */
  lemma FrameLineInjective(f1: Frame, f2: Frame)
    requires FrameLine(f1) == FrameLine(f2)
    ensures f1 == f2
  {
    PositionedLineInjective("  [", "] > ", f1.row, f1.col, f1.name, f2.row, f2.col, f2.name);
  }

  /** Frame `j` of the stack is rendered on line `|stack| + 1 - j`. */
  lemma ReportFrameAt(err: RuntimeError, stack: seq<Frame>, j: int)
    requires 0 <= j < |stack|
    ensures Report(err, stack)[|stack| + 1 - j] == FrameLine(stack[j])
  {
  }

  lemma SameLineSameFrame(e1: RuntimeError, s1: seq<Frame>, e2: RuntimeError, s2: seq<Frame>, j: int)
    requires |s1| == |s2| && 0 <= j < |s1|
    requires Report(e1, s1)[|s1| + 1 - j] == Report(e2, s2)[|s2| + 1 - j]
    ensures s1[j] == s2[j]
  {
    ReportFrameAt(e1, s1, j);
    ReportFrameAt(e2, s2, j);
    FrameLineInjective(s1[j], s2[j]);
  }

  /** The report loses nothing: it determines the error and the whole stack. */
  lemma ReportInjective(e1: RuntimeError, s1: seq<Frame>, e2: RuntimeError, s2: seq<Frame>)
    requires Report(e1, s1) == Report(e2, s2)
    ensures e1 == e2 && s1 == s2
  {
    var lines := Report(e1, s1);
    assert lines[0] == Header(e1) && lines[0] == Header(e2);
    HeaderInjective(e1, e2);
    assert |s1| == |s2|;
    forall j | 0 <= j < |s1|
      ensures s1[j] == s2[j]
    {
      SameLineSameFrame(e1, s1, e2, s2, j);
    }
  }

  /** A call nested in another: the inner call's line comes before the outer's. */
  lemma NestedCallTrace(err: RuntimeError, outer: Frame, inner: Frame)
    ensures Report(err, [outer, inner]) == [Header(err), TraceTitle, FrameLine(inner), FrameLine(outer)]
  {
  }

  /**
   An error at 4:10 with frames pushed at 2:1 and then at 4:10: the frame
   pushed last is reported first.
   */
  lemma NestedFramesExample(message: string, caller: string, callee: string)
    ensures Report(RuntimeError(4, 10, message), [Frame(caller, 2, 1), Frame(callee, 4, 10)]) ==
            [ "[4:10]Runtime Error: " + message,
              "Stack trace:",
              "  [4:10] > " + callee,
              "  [2:1] > " + caller ]
  {
    NestedCallTrace(RuntimeError(4, 10, message), Frame(caller, 2, 1), Frame(callee, 4, 10));
    ExampleHeader(message);
    ExampleCalleeLine(callee);
    ExampleCallerLine(caller);
  }

  lemma ExampleHeader(message: string)
    ensures Header(RuntimeError(4, 10, message)) == "[4:10]Runtime Error: " + message
  {
    SmallNumbers();
    ConcatSix("[", "4", ":", "10", "]Runtime Error: ", message);
  }

  lemma ExampleCalleeLine(name: string)
    ensures FrameLine(Frame(name, 4, 10)) == "  [4:10] > " + name
  {
    SmallNumbers();
    ConcatSix("  [", "4", ":", "10", "] > ", name);
  }

  lemma ExampleCallerLine(name: string)
    ensures FrameLine(Frame(name, 2, 1)) == "  [2:1] > " + name
  {
    SmallNumbers();
    ConcatSix("  [", "2", ":", "1", "] > ", name);
  }

  lemma SmallNumbers()
    ensures Decimal.IntToString(1) == "1" && Decimal.IntToString(2) == "2"
    ensures Decimal.IntToString(4) == "4" && Decimal.IntToString(10) == "10"
  {
  }
}
