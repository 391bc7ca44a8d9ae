/**
 * `utils.getMethodDesc`, `utils.PanicErrStr` and `utils.PanicErr`: the text that describes a
 * method call and a recovered panic, built with the part of `fmt.Sprintf` they use. Parameters
 * are taken as already rendered strings (what `%v` prints for them).
 */
module ErrHelper {

  /** The name used when the method name is empty (spelled as in the source). */
  const UnknownMethod: string := "uncknown_method_"

  const Separator: string := ", "

  /** The rendered parameters with sep between consecutive ones, built from the left as the loop does. */
  function Join(params: seq<string>, sep: string): (text: string) {
    if |params| == 0 then ""
    else if |params| == 1 then params[0]
    else Join(params[..|params| - 1], sep) + sep + params[|params| - 1]
  }

  /** The same text built from the right: first parameter, then sep and the rest. */
  function JoinRight(params: seq<string>, sep: string): (text: string) {
    if |params| == 0 then ""
    else if |params| == 1 then params[0]
    else params[0] + sep + JoinRight(params[1..], sep)
  }

  /** `getMethodDesc(method, params...)`. */
  function MethodDesc(name: string, params: seq<string>): (desc: string)
    ensures |desc| >= 2 && desc[|desc| - 1] == ')'
  {
    (if name == "" then UnknownMethod else name) + "(" + Join(params, Separator) + ")"
  }

  method GetMethodDesc(name: string, params: seq<string>) returns (desc: string)
    ensures desc == MethodDesc(name, params)
  {
    var n := |params|;
    desc := name;
    if desc == "" {
      desc := UnknownMethod;
    }
    desc := desc + "(";
    ghost var head := desc;
    for i := 0 to n
      invariant desc == head + Join(params[..i], Separator) + (if 0 < i < n then Separator else "")
    {
      assert params[..i + 1][..i] == params[..i];
      desc := desc + params[i];
      if i < n - 1 {
        desc := desc + Separator;
      }
    }
    assert params[..n] == params;
    desc := desc + ")";
  }

  lemma {:induction false} JoinAppend(params: seq<string>, p: string, sep: string)
    requires |params| > 0
    ensures JoinRight(params + [p], sep) == JoinRight(params, sep) + sep + p
  {
    if |params| > 1 {
      assert (params + [p])[1..] == params[1..] + [p];
      JoinAppend(params[1..], p, sep);
    }
  }

  /** Building from the left and from the right gives the same text. */
  lemma {:induction false} JoinBothWays(params: seq<string>, sep: string)
    ensures Join(params, sep) == JoinRight(params, sep)
  {
    if |params| > 1 {
      var init := params[..|params| - 1];
      JoinBothWays(init, sep);
      JoinAppend(init, params[|params| - 1], sep);
      assert init + [params[|params| - 1]] == params;
    }
  }

  /** With no parameters the description is the name and an empty pair of parentheses. */
  lemma NoParams(name: string)
    ensures MethodDesc(name, []) == name + "()" || (name == "" && MethodDesc(name, []) == UnknownMethod + "()")
  {
  }

  /** The separator never trails: the parameter list ends with the last parameter itself. */
  lemma {:induction false} LastParamEnds(name: string, params: seq<string>)
    requires |params| > 0
    ensures var desc := MethodDesc(name, params);
      desc[|desc| - |params[|params| - 1]| - 1..] == params[|params| - 1] + ")"
  {
    var last := params[|params| - 1];
    var inner := Join(params, Separator);
    assert inner[|inner| - |last|..] == last;
    var desc := MethodDesc(name, params);
    var pre := (if name == "" then UnknownMethod else name) + "(";
    assert desc == pre + inner + ")";
    assert desc[|desc| - |last| - 1..] == inner[|inner| - |last|..] + ")";
  }

  /** The text of the description between its parentheses has length sum of parameters plus two per gap. */
  function TotalLength(params: seq<string>): (n: nat) {
    if |params| == 0 then 0 else TotalLength(params[..|params| - 1]) + |params[|params| - 1]|
  }

  lemma {:induction false} JoinLength(params: seq<string>)
    requires |params| > 0
    ensures |Join(params, Separator)| == TotalLength(params) + 2 * (|params| - 1)
  {
    if |params| > 1 {
      JoinLength(params[..|params| - 1]);
    }
  }

  /** The characters split at every comma. */
  function SplitComma(s: string): (parts: seq<string>)
    ensures |parts| > 0
  {
    if |s| == 0 then [""]
    else
      var rest := SplitComma(s[1..]);
      if s[0] == ',' then [""] + rest else [[s[0]] + rest[0]] + rest[1..]
  }

  predicate NoComma(p: string) {
    forall k :: 0 <= k < |p| ==> p[k] != ','
  }

  lemma {:induction false} SplitNoComma(a: string, b: string)
    requires NoComma(a)
    ensures SplitComma(a + b) == [a + SplitComma(b)[0]] + SplitComma(b)[1..]
  {
    if |a| > 0 {
      assert (a + b)[1..] == a[1..] + b;
      SplitNoComma(a[1..], b);
      assert [a[0]] + (a[1..] + SplitComma(b)[0]) == a + SplitComma(b)[0];
    } else {
      var parts := SplitComma(b);
      assert a + b == b;
      assert a + parts[0] == parts[0];
      assert [parts[0]] + parts[1..] == parts;
    }
  }

  /** The parameters as they reappear when the joined text is split at commas: each after the first keeps the blank. */
  function Reappear(params: seq<string>): (parts: seq<string>)
    ensures |parts| == |params|
  {
    seq(|params|, i requires 0 <= i < |params| => if i == 0 then params[0] else " " + params[i])
  }

  /** Splitting the parameter text at commas recovers the parameters when none of them holds a comma. */
  lemma {:induction false} SplitJoin(params: seq<string>)
    requires |params| > 0
    requires forall i :: 0 <= i < |params| ==> NoComma(params[i])
    ensures SplitComma(JoinRight(params, Separator)) == Reappear(params)
  {
    if |params| == 1 {
      SplitNoComma(params[0], "");
      assert params[0] + "" == params[0];
    } else {
      var tail := params[1..];
      assert forall i :: 0 <= i < |tail| ==> NoComma(tail[i]) by {
        forall i | 0 <= i < |tail| ensures NoComma(tail[i]) {
          assert tail[i] == params[i + 1];
        }
      }
      SplitJoin(tail);
      var rest := JoinRight(tail, Separator);
      var y := " " + rest;
      var x := "," + y;
      assert JoinRight(params, Separator) == params[0] + x;
      SplitNoComma(params[0], x);
      assert x[0] == ',' && x[1..] == y;
      assert SplitComma(x) == [""] + SplitComma(y);
      assert NoComma(" ");
      SplitNoComma(" ", rest);
      var r := Reappear(tail);
      assert SplitComma(y) == [" " + r[0]] + r[1..];
      assert params[0] + "" == params[0];
      var whole := [params[0]] + ([" " + r[0]] + r[1..]);
      assert SplitComma(JoinRight(params, Separator)) == whole;
      assert |whole| == |params|;
      forall i | 0 <= i < |params|
        ensures whole[i] == Reappear(params)[i]
      {
        if i == 1 {
          assert whole[1] == " " + r[0] && r[0] == tail[0];
        } else if i > 1 {
          assert whole[i] == r[i - 1] && r[i - 1] == " " + tail[i - 1];
        }
      }
    }
  }

  /** A description without parameters equals one with a single empty parameter. */
  lemma EmptyParamAmbiguity(name: string)
    ensures MethodDesc(name, []) == MethodDesc(name, [""])
  {
  }

  /** The format of a panic report: the method description, the panic value and the stack. */
  const PanicErrorString: string := "%v PANIC:'%v'\n\tat:[[\n%s\n]]\n"

  /** Characters that Go's formatter reads as a flag, a width, a precision or an argument index after a percent sign. */
  predicate IsModifier(c: char) {
    c == ' ' || c == '+' || c == '-' || c == '#' || ('0' <= c <= '9') || c == '.' || c == '*' || c == '['
  }

  /**
   * `fmt.Sprintf(format, args...)` for arguments already rendered as text. `%v` and `%s` take the
   * next argument, `%%` writes one percent sign, a verb without an argument left writes
   * `%!c(MISSING)`, and a percent sign ending the format writes `%!(NOVERB)`.
   */
  function Sprintf(format: string, args: seq<string>): (text: string)
    decreases |format|
  {
    if |format| == 0 then ""
    else if format[0] != '%' then [format[0]] + Sprintf(format[1..], args)
    else if |format| == 1 then "%!(NOVERB)"
    else if format[1] == '%' then "%" + Sprintf(format[2..], args)
    else if IsModifier(format[1]) then [format[0]] + Sprintf(format[1..], args)
    else if |args| == 0 then "%!" + [format[1]] + "(MISSING)" + Sprintf(format[2..], args)
    else if format[1] == 'v' || format[1] == 's' then args[0] + Sprintf(format[2..], args[1..])
    else [format[0]] + Sprintf(format[1..], args)
  }

  /** Text without a percent sign is copied through unchanged, whatever the arguments. */
  lemma {:induction false} SprintfLiteral(lit: string, rest: string, args: seq<string>)
    requires '%' !in lit
    ensures Sprintf(lit + rest, args) == lit + Sprintf(rest, args)
  {
    if |lit| > 0 {
      assert (lit + rest)[0] == lit[0] && (lit + rest)[1..] == lit[1..] + rest;
      assert lit[0] != '%' by { assert lit[0] in lit; }
      SprintfLiteral(lit[1..], rest, args);
      assert [lit[0]] + lit[1..] == lit;
    } else {
      assert lit + rest == rest;
    }
  }

  lemma SprintfPlain(text: string, args: seq<string>)
    requires '%' !in text
    ensures Sprintf(text, args) == text
  {
    SprintfLiteral(text, "", args);
    assert text + "" == text;
  }

  /** `%v` and `%s` write the next argument as it is: a percent sign inside it is not read again. */
  lemma SprintfVerb(c: char, rest: string, a: string, args: seq<string>)
    requires c == 'v' || c == 's'
    ensures Sprintf(['%', c] + rest, [a] + args) == a + Sprintf(rest, args)
  {
    var f := ['%', c] + rest;
    assert f[0] == '%' && f[1] == c && f[2..] == rest;
    assert ([a] + args)[1..] == args;
  }

  /** `PanicErrStr(irecover, stack, method, params...)` with the recovered value and the stack already rendered. */
  function PanicErrStr(recovered: string, stack: string, name: string, params: seq<string>): (r: string)
    ensures r == MethodDesc(name, params) + " PANIC:'" + recovered + "'\n\tat:[[\n" + stack + "\n]]\n"
    ensures |r| == |MethodDesc(name, params)| + |recovered| + |stack| + 21
    ensures r[..|MethodDesc(name, params)|] == MethodDesc(name, params)
  {
    PanicLayout(MethodDesc(name, params), recovered, stack);
    Sprintf(PanicErrorString, [MethodDesc(name, params), recovered, stack])
  }

  /** A verb followed by literal text writes the argument and then that text. */
  lemma VerbThenText(v: char, lit: string, rest: string, a: string, args: seq<string>)
    requires v == 'v' || v == 's'
    requires '%' !in lit
    ensures Sprintf(['%', v] + (lit + rest), [a] + args) == a + lit + Sprintf(rest, args)
  {
    SprintfVerb(v, lit + rest, a, args);
    SprintfLiteral(lit, rest, args);
  }

  /** A format of three verbs separated by literal texts places the three arguments between those texts. */
  lemma ThreeVerbs(v1: char, p1: string, v2: char, p2: string, v3: char, p3: string, a: string, b: string, c: string)
    requires (v1 == 'v' || v1 == 's') && (v2 == 'v' || v2 == 's') && (v3 == 'v' || v3 == 's')
    requires '%' !in p1 && '%' !in p2 && '%' !in p3
    ensures Sprintf(['%', v1] + (p1 + (['%', v2] + (p2 + (['%', v3] + (p3 + ""))))), [a, b, c]) == a + p1 + b + p2 + c + p3
  {
    var t3 := ['%', v3] + (p3 + "");
    var t2 := ['%', v2] + (p2 + t3);
    assert [a, b, c] == [a] + [b, c];
    assert [b, c] == [b] + [c];
    assert [c] == [c] + [];
    VerbThenText(v1, p1, t2, a, [b, c]);
    VerbThenText(v2, p2, t3, b, [c]);
    VerbThenText(v3, p3, "", c, []);
  }

  /** The report format places its three arguments between its fixed pieces of text. */
  lemma PanicLayout(desc: string, recovered: string, stack: string)
    ensures Sprintf(PanicErrorString, [desc, recovered, stack])
         == desc + " PANIC:'" + recovered + "'\n\tat:[[\n" + stack + "\n]]\n"
  {
    var p1, p2, p3 := " PANIC:'", "'\n\tat:[[\n", "\n]]\n";
    assert PanicErrorString == ['%', 'v'] + (p1 + (['%', 'v'] + (p2 + (['%', 's'] + (p3 + "")))));
    ThreeVerbs('v', p1, 'v', p2, 's', p3, desc, recovered, stack);
  }

  /** How `%v` prints a slice of rendered values: brackets around the values separated by blanks. */
  function RenderSlice(params: seq<string>): (text: string) {
    "[" + Join(params, " ") + "]"
  }

  /** `PanicErr` passes its parameter slice on as one value, so the description has a single parameter slot. */
  function PanicErrText(recovered: string, stack: string, name: string, params: seq<string>): (text: string) {
    PanicErrStr(recovered, stack, name, [RenderSlice(params)])
  }

  /** A PanicErr text is the report of PanicErrStr with the rendered slice in the description's one slot. */
  lemma PanicErrTextLayout(recovered: string, stack: string, name: string, params: seq<string>)
    ensures PanicErrText(recovered, stack, name, params)
         == MethodDesc(name, [RenderSlice(params)]) + " PANIC:'" + recovered + "'\n\tat:[[\n" + stack + "\n]]\n"
  {
  }

  /** The description inside a PanicErr text holds the whole slice, brackets included, in its one slot. */
  lemma PanicErrOneSlot(recovered: string, stack: string, name: string, params: seq<string>)
    ensures PanicErrText(recovered, stack, name, params)[..|MethodDesc(name, [RenderSlice(params)])|]
         == (if name == "" then UnknownMethod else name) + "([" + Join(params, " ") + "])"
  {
    SlotDesc(name, params);
  }

  lemma SlotDesc(name: string, params: seq<string>)
    ensures MethodDesc(name, [RenderSlice(params)]) == (if name == "" then UnknownMethod else name) + "([" + Join(params, " ") + "])"
  {
    assert Join([RenderSlice(params)], Separator) == RenderSlice(params);
  }

  /** Two parameters given to PanicErr show up as one bracketed, blank-separated value: the call reads "F([a b])". */
  lemma PanicErrExample()
    ensures MethodDesc("F", [RenderSlice(["a", "b"])]) == "F([a b])"
  {
    SlotDesc("F", ["a", "b"]);
    assert ["a", "b"][..1] == ["a"];
  }

  /**
   * `PanicErr` as written: the report text becomes the format of `Errorf`, with no arguments,
   * so a percent sign in it is read as a verb.
   */
  function PanicErrMessage(recovered: string, stack: string, name: string, params: seq<string>): (msg: string) {
    Sprintf(PanicErrText(recovered, stack, name, params), [])
  }

  /** `PanicErr` with the report passed as an argument, `Errorf("%s", text)`: the message is the report itself. */
  function PanicErrMessageFixed(recovered: string, stack: string, name: string, params: seq<string>): (msg: string)
    ensures msg == PanicErrText(recovered, stack, name, params)
  {
    var text := PanicErrText(recovered, stack, name, params);
    SprintfOne(text);
    Sprintf("%s", [text])
  }

  lemma SprintfOne(a: string)
    ensures Sprintf("%s", [a]) == a
  {
    assert "%s" == ['%', 's'] + ("" + "") && [a] == [a] + [];
    VerbThenText('s', "", "", a, []);
  }

  lemma {:induction false} JoinNoPercent(params: seq<string>, sep: string)
    requires '%' !in sep && forall i :: 0 <= i < |params| ==> '%' !in params[i]
    ensures '%' !in Join(params, sep)
  {
    if |params| > 1 {
      var init := params[..|params| - 1];
      assert forall i :: 0 <= i < |init| ==> init[i] == params[i];
      JoinNoPercent(init, sep);
    }
  }

  /** The description PanicErr builds has no percent sign when its name and parameters have none. */
  lemma SlotNoPercent(name: string, params: seq<string>)
    requires '%' !in name && forall i :: 0 <= i < |params| ==> '%' !in params[i]
    ensures '%' !in MethodDesc(name, [RenderSlice(params)])
  {
    JoinNoPercent(params, " ");
    SlotDesc(name, params);
    assert '%' !in UnknownMethod;
  }

  /** Without a percent sign anywhere in its inputs, PanicErr's message is the report text. */
  lemma PanicErrPlain(recovered: string, stack: string, name: string, params: seq<string>)
    requires '%' !in recovered && '%' !in stack && '%' !in name
    requires forall i :: 0 <= i < |params| ==> '%' !in params[i]
    ensures PanicErrMessage(recovered, stack, name, params) == PanicErrText(recovered, stack, name, params)
  {
    SlotNoPercent(name, params);
    PanicErrTextLayout(recovered, stack, name, params);
    PlainReport(MethodDesc(name, [RenderSlice(params)]), recovered, stack, PanicErrText(recovered, stack, name, params));
  }

  lemma PlainReport(desc: string, recovered: string, stack: string, text: string)
    requires '%' !in desc && '%' !in recovered && '%' !in stack
    requires text == desc + " PANIC:'" + recovered + "'\n\tat:[[\n" + stack + "\n]]\n"
    ensures Sprintf(text, []) == text
  {
    SprintfPlain(text, []);
  }

  /**
   * A panic value ending in a percent sign loses the report's closing quote: `%'` is read as a
   * verb without an argument and written as `%!'(MISSING)`.
   */
  lemma PanicErrPercent(pre: string, stack: string, name: string, params: seq<string>)
    requires '%' !in pre && '%' !in stack && '%' !in name
    requires forall i :: 0 <= i < |params| ==> '%' !in params[i]
    ensures PanicErrMessage(pre + "%", stack, name, params)
         == MethodDesc(name, [RenderSlice(params)]) + " PANIC:'" + pre + "%!'(MISSING)\n\tat:[[\n" + stack + "\n]]\n"
    ensures PanicErrMessage(pre + "%", stack, name, params) != PanicErrText(pre + "%", stack, name, params)
  {
    SlotNoPercent(name, params);
    PanicErrTextLayout(pre + "%", stack, name, params);
    PercentReport(MethodDesc(name, [RenderSlice(params)]), pre, stack, PanicErrText(pre + "%", stack, name, params));
  }

  /** A verb with no argument left is written as `%!c(MISSING)`. */
  lemma VerbMissing(c: char, rest: string)
    requires c != '%' && !IsModifier(c)
    ensures Sprintf(['%', c] + rest, []) == "%!" + [c] + "(MISSING)" + Sprintf(rest, [])
  {
    var f := ['%', c] + rest;
    assert f[0] == '%' && f[1] == c && f[2..] == rest;
  }

  lemma PercentReport(desc: string, pre: string, stack: string, text: string)
    requires '%' !in desc && '%' !in pre && '%' !in stack
    requires text == desc + " PANIC:'" + (pre + "%") + "'\n\tat:[[\n" + stack + "\n]]\n"
    ensures Sprintf(text, []) == desc + " PANIC:'" + pre + "%!'(MISSING)\n\tat:[[\n" + stack + "\n]]\n"
    ensures Sprintf(text, []) != text
  {
    var head := desc + " PANIC:'" + pre;
    var tail := "\n\tat:[[\n" + stack + "\n]]\n";
    assert text == head + (['%', '\''] + tail);
    MissingQuote(head, tail);
    assert desc + " PANIC:'" + pre + "%!'(MISSING)\n\tat:[[\n" + stack + "\n]]\n" == head + ("%!'(MISSING)" + tail);
  }

  lemma MissingQuote(head: string, tail: string)
    requires '%' !in head && '%' !in tail
    ensures Sprintf(head + (['%', '\''] + tail), []) == head + ("%!'(MISSING)" + tail)
    ensures Sprintf(head + (['%', '\''] + tail), []) != head + (['%', '\''] + tail)
  {
    SprintfLiteral(head, ['%', '\''] + tail, []);
    VerbMissing('\'', tail);
    SprintfPlain(tail, []);
    assert "%!" + ['\''] + "(MISSING)" + tail == "%!'(MISSING)" + tail;
    var msg, text := head + ("%!'(MISSING)" + tail), head + (['%', '\''] + tail);
    assert msg[|head| + 1] == '!' && text[|head| + 1] == '\'';
  }

  /** The example of the documentation comment. */
  lemma MethodDescExample()
    ensures MethodDesc("ProcessData", ["input", "42"]) == "ProcessData(input, 42)"
  {
    assert ["input", "42"][..1] == ["input"];
  }
}
