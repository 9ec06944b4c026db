/*
  The compile-error printer. The writer it talks to styles each piece of text by its
  role (error, definition, type name, number, ...); here the writer records the
  pieces as tokens, in order, and the terminal colouring is not modelled.
*/
module ErrorPrinter {
  import opened Common
  import opened Decimal
  import opened RegistryModel
  import opened Validators

  /** One call on the error writer. */
  datatype Token =
    | ErrorPart(m: string)
    | DefinitionPart(m: string)
    | ModulePart(m: string)
    | TypenamePart(m: string)
    | NumberPart(m: string)
    | OperatorPart(m: string)
    | LayoutPart(m: string)
    | TextPart(m: string)
    | Eol
    | Flush

  /** An error writer that keeps what it was given. */
  class TokenWriter {
    var tokens: seq<Token>

    constructor ()
      ensures tokens == []
    {
      tokens := [];
    }

    method WriteError(m: string)
      modifies this
      ensures tokens == old(tokens) + [ErrorPart(m)]
    {
      tokens := tokens + [ErrorPart(m)];
    }

    method WriteDefinition(m: string)
      modifies this
      ensures tokens == old(tokens) + [DefinitionPart(m)]
    {
      tokens := tokens + [DefinitionPart(m)];
    }

    method WriteModule(m: string)
      modifies this
      ensures tokens == old(tokens) + [ModulePart(m)]
    {
      tokens := tokens + [ModulePart(m)];
    }

    method WriteTypename(m: string)
      modifies this
      ensures tokens == old(tokens) + [TypenamePart(m)]
    {
      tokens := tokens + [TypenamePart(m)];
    }

    method WriteNumber(m: string)
      modifies this
      ensures tokens == old(tokens) + [NumberPart(m)]
    {
      tokens := tokens + [NumberPart(m)];
    }

    method WriteOperator(m: string)
      modifies this
      ensures tokens == old(tokens) + [OperatorPart(m)]
    {
      tokens := tokens + [OperatorPart(m)];
    }

    method WriteLayout(m: string)
      modifies this
      ensures tokens == old(tokens) + [LayoutPart(m)]
    {
      tokens := tokens + [LayoutPart(m)];
    }

    method WriteText(m: string)
      modifies this
      ensures tokens == old(tokens) + [TextPart(m)]
    {
      tokens := tokens + [TextPart(m)];
    }

    method WriteEol()
      modifies this
      ensures tokens == old(tokens) + [Eol]
    {
      tokens := tokens + [Eol];
    }

    method WriteFlush()
      modifies this
      ensures tokens == old(tokens) + [Flush]
    {
      tokens := tokens + [Flush];
    }
  }

  // ---------------------------------------------------------------------------
  // Token counting and the names written

  /** How many times `t` was written. */
  function Count(ts: seq<Token>, t: Token): nat
  {
    if ts == [] then 0 else Count(ts[..|ts| - 1], t) + (if ts[|ts| - 1] == t then 1 else 0)
  }

  lemma {:induction false} CountAppend(a: seq<Token>, b: seq<Token>, t: Token)
    ensures Count(a + b, t) == Count(a, t) + Count(b, t)
    decreases |b|
  {
    if b == [] {
      assert a + b == a;
    } else {
      assert (a + b)[..|a + b| - 1] == a + b[..|b| - 1];
      CountAppend(a, b[..|b| - 1], t);
    }
  }

  lemma {:induction false} CountAbsent(ts: seq<Token>, t: Token)
    requires t !in ts
    ensures Count(ts, t) == 0
  {
    if ts != [] {
      assert forall x :: x in ts[..|ts| - 1] ==> x in ts;
      CountAbsent(ts[..|ts| - 1], t);
    }
  }

  /** The count in `a + [x] + b` when only `x` may be `t`. */
  lemma CountAround(a: seq<Token>, x: Token, b: seq<Token>, t: Token)
    requires t !in a && t !in b
    ensures Count(a + [x] + b, t) == if x == t then 1 else 0
  {
    CountAppend(a, [x], t);
    CountAppend(a + [x], b, t);
    CountAbsent(a, t);
    CountAbsent(b, t);
    assert [x][..0] == [];
  }

  /** The definition names among the tokens, in order. */
  function Names(ts: seq<Token>): seq<string>
  {
    if ts == [] then []
    else Names(ts[..|ts| - 1]) + (if ts[|ts| - 1].DefinitionPart? then [ts[|ts| - 1].m] else [])
  }

  lemma {:induction false} NamesAppend(a: seq<Token>, b: seq<Token>)
    ensures Names(a + b) == Names(a) + Names(b)
    decreases |b|
  {
    if b == [] {
      assert a + b == a;
    } else {
      assert (a + b)[..|a + b| - 1] == a + b[..|b| - 1];
      NamesAppend(a, b[..|b| - 1]);
    }
  }

  lemma {:induction false} NoNames(ts: seq<Token>)
    requires forall i :: 0 <= i < |ts| ==> !ts[i].DefinitionPart?
    ensures Names(ts) == []
  {
    if ts != [] {
      NoNames(ts[..|ts| - 1]);
    }
  }

  /** The names in `a + [x] + b` when only `x` may be a definition name. */
  lemma NamesAround(a: seq<Token>, x: Token, b: seq<Token>)
    requires forall i :: 0 <= i < |a| ==> !a[i].DefinitionPart?
    requires forall i :: 0 <= i < |b| ==> !b[i].DefinitionPart?
    ensures Names(a + [x] + b) == if x.DefinitionPart? then [x.m] else []
  {
    NamesAppend(a, [x]);
    NamesAppend(a + [x], b);
    NoNames(a);
    NoNames(b);
    assert [x][..0] == [];
  }

  // ---------------------------------------------------------------------------
  // A definition

  /** The tokens for the k-th argument: "source: type", then ", " unless it is the
      last one. */
  function ArgItem(args: seq<Argument>, k: nat): seq<Token>
    requires k < |args|
  {
    [DefinitionPart(args[k].source), TextPart(": "), TypenamePart(args[k].typedef)]
      + (if k + 1 < |args| then [TextPart(", ")] else [])
  }

  /** The tokens for the first n arguments. */
  function ArgItems(args: seq<Argument>, n: nat): seq<Token>
    requires n <= |args|
  {
    if n == 0 then [] else ArgItems(args, n - 1) + ArgItem(args, n - 1)
  }

  /** What `pretty_print_definition` writes. */
  function DefinitionTokens(d: Definition): seq<Token>
  {
    [DefinitionPart(d.id)]
      + (if |d.args| > 0 then [TextPart(" (")] + ArgItems(d.args, |d.args|) + [TextPart(")")] else [])
      + [OperatorPart(" -> "), TypenamePart(d.typedef)]
  }

  /** `pretty_print_definition`: the id; the arguments in parentheses, separated by
      commas, only when there are any; then the arrow and the result type. */
  method PrettyPrintDefinition(w: TokenWriter, definition: Definition)
    modifies w
    ensures w.tokens == old(w.tokens) + DefinitionTokens(definition)
  {
    ghost var start := w.tokens;
    w.WriteDefinition(definition.id);
    var argc := |definition.args|;
    if argc > 0 {
      PrintArgumentList(w, definition.args);
    }
    ghost var listed := w.tokens;
    ghost var args := if argc > 0 then [TextPart(" (")] + ArgItems(definition.args, argc) + [TextPart(")")] else [];
    assert listed == start + [DefinitionPart(definition.id)] + args;
    w.WriteOperator(" -> ");
    w.WriteTypename(definition.typedef);
    ghost var tail := [OperatorPart(" -> "), TypenamePart(definition.typedef)];
    assert w.tokens == listed + tail;
    AppendAssoc(start, [DefinitionPart(definition.id)], args);
    AppendAssoc(start, [DefinitionPart(definition.id)] + args, tail);
  }

  /** The parenthesised argument list of a definition with arguments. */
  method PrintArgumentList(w: TokenWriter, args: seq<Argument>)
    modifies w
    ensures w.tokens == old(w.tokens) + ([TextPart(" (")] + ArgItems(args, |args|) + [TextPart(")")])
  {
    ghost var start := w.tokens;
    w.WriteText(" (");
    var index := 0;
    while index < |args|
      invariant 0 <= index <= |args|
      invariant w.tokens == start + [TextPart(" (")] + ArgItems(args, index)
    {
      AppendAssoc(start + [TextPart(" (")], ArgItems(args, index), ArgItem(args, index));
      PrintArgument(w, args, index);
      index := index + 1;
    }
    w.WriteText(")");
    AppendAssoc(start, [TextPart(" (")], ArgItems(args, |args|));
    AppendAssoc(start, [TextPart(" (")] + ArgItems(args, |args|), [TextPart(")")]);
  }

  /** One argument: its source, ": ", its type, and ", " unless it is the last. */
  method PrintArgument(w: TokenWriter, args: seq<Argument>, k: nat)
    requires k < |args|
    modifies w
    ensures w.tokens == old(w.tokens) + ArgItem(args, k)
  {
    ghost var start := w.tokens;
    w.WriteDefinition(args[k].source);
    w.WriteText(": ");
    w.WriteTypename(args[k].typedef);
    ghost var item := [DefinitionPart(args[k].source), TextPart(": "), TypenamePart(args[k].typedef)];
    assert w.tokens == start + item;
    if k + 1 < |args| {
      w.WriteText(", ");
      AppendAssoc(start, item, [TextPart(", ")]);
    } else {
      assert item + [] == item;
    }
  }

  /** Where each argument lands among the first n items: four tokens per argument,
      the separator only between arguments. */
  lemma {:induction false} ArgItemsLayout(args: seq<Argument>, n: nat)
    requires n <= |args|
    ensures |ArgItems(args, n)| == 4 * n - (if 0 < n == |args| then 1 else 0)
    ensures forall k :: 0 <= k < n ==>
      && ArgItems(args, n)[4 * k] == DefinitionPart(args[k].source)
      && ArgItems(args, n)[4 * k + 1] == TextPart(": ")
      && ArgItems(args, n)[4 * k + 2] == TypenamePart(args[k].typedef)
      && (k + 1 < |args| ==> ArgItems(args, n)[4 * k + 3] == TextPart(", "))
  {
    if n > 0 {
      ArgItemsLayout(args, n - 1);
      var prev := ArgItems(args, n - 1);
      assert |prev| == 4 * (n - 1);
      forall k | 0 <= k < n
        ensures ArgItems(args, n)[4 * k] == DefinitionPart(args[k].source)
        ensures ArgItems(args, n)[4 * k + 1] == TextPart(": ")
        ensures ArgItems(args, n)[4 * k + 2] == TypenamePart(args[k].typedef)
        ensures k + 1 < |args| ==> ArgItems(args, n)[4 * k + 3] == TextPart(", ")
      {
        if k < n - 1 {
          assert ArgItems(args, n)[4 * k] == prev[4 * k];
          assert ArgItems(args, n)[4 * k + 1] == prev[4 * k + 1];
          assert ArgItems(args, n)[4 * k + 2] == prev[4 * k + 2];
          assert ArgItems(args, n)[4 * k + 3] == prev[4 * k + 3];
        }
      }
    }
  }

  /** The printed form of a definition, position by position. */
  lemma DefinitionTokensLayout(d: Definition)
    ensures var t := DefinitionTokens(d);
      var n := |d.args|;
      && t[0] == DefinitionPart(d.id)
      && (n == 0 ==> t == [DefinitionPart(d.id), OperatorPart(" -> "), TypenamePart(d.typedef)])
      && (n > 0 ==>
            && |t| == 4 * n + 4
            && t[1] == TextPart(" (")
            && (forall k :: 0 <= k < n ==>
                  t[4 * k + 2] == DefinitionPart(d.args[k].source) && t[4 * k + 4] == TypenamePart(d.args[k].typedef))
            && t[4 * n + 1] == TextPart(")")
            && t[4 * n + 2] == OperatorPart(" -> ")
            && t[4 * n + 3] == TypenamePart(d.typedef))
  {
    var n := |d.args|;
    if n > 0 {
      ArgItemsLayout(d.args, n);
      var t := DefinitionTokens(d);
      var items := ArgItems(d.args, n);
      assert t == [DefinitionPart(d.id), TextPart(" (")] + items + [TextPart(")"), OperatorPart(" -> "), TypenamePart(d.typedef)];
      forall k | 0 <= k < n
        ensures t[4 * k + 2] == DefinitionPart(d.args[k].source) && t[4 * k + 4] == TypenamePart(d.args[k].typedef)
      {
        assert t[4 * k + 2] == items[4 * k];
        assert t[4 * k + 4] == items[4 * k + 2];
      }
    }
  }

  /** The printed form determines the definition's id, arguments and result type. */
  lemma DefinitionTokensInjective(a: Definition, b: Definition)
    requires DefinitionTokens(a) == DefinitionTokens(b)
    ensures a.id == b.id && a.args == b.args && a.typedef == b.typedef
  {
    DefinitionTokensLayout(a);
    DefinitionTokensLayout(b);
    var t := DefinitionTokens(a);
    assert |a.args| == |b.args|;
    var n := |a.args|;
    forall k | 0 <= k < n
      ensures a.args[k] == b.args[k]
    {
      assert t[4 * k + 2] == DefinitionPart(a.args[k].source);
      assert t[4 * k + 4] == TypenamePart(a.args[k].typedef);
    }
    if n > 0 {
      assert t[4 * n + 3] == TypenamePart(a.typedef);
    } else {
      assert t[2] == TypenamePart(a.typedef);
    }
  }

  // ---------------------------------------------------------------------------
  // Missing dependencies

  /** The line for the i-th argument type: the source that feeds it, or "?" when
      there is none. */
  function MissingLine(sources: seq<Id>, types: seq<TypeName>, i: nat): seq<Token>
    requires i < |types|
  {
    [Eol, LayoutPart(" |> "),
     if i < |sources| then DefinitionPart(sources[i]) else ErrorPart("?"),
     TextPart(": "), TypenamePart(types[i])]
  }

  function MissingLines(sources: seq<Id>, types: seq<TypeName>, n: nat): seq<Token>
    requires n <= |types|
  {
    if n == 0 then [] else MissingLines(sources, types, n - 1) + MissingLine(sources, types, n - 1)
  }

  /** `pretty_print_missing_dependencies`: one line per argument type; the sources
      paired with the types first, then "?" for each type left without one. The
      slice of the remaining types panics when there are more sources than types. */
  method PrettyPrintMissingDependencies(w: TokenWriter, error: ArgumentCountMismatch)
    requires |error.argSources| <= |error.argTypes|
    modifies w
    ensures w.tokens == old(w.tokens) + MissingLines(error.argSources, error.argTypes, |error.argTypes|)
  {
    ghost var start := w.tokens;
    var sourceCount := |error.argSources|;
    var i := 0;
    while i < sourceCount
      invariant 0 <= i <= sourceCount
      invariant w.tokens == start + MissingLines(error.argSources, error.argTypes, i)
    {
      AppendAssoc(start, MissingLines(error.argSources, error.argTypes, i), MissingLine(error.argSources, error.argTypes, i));
      PrintSourceLine(w, error.argSources[i], error.argTypes[i]);
      i := i + 1;
    }
    while i < |error.argTypes|
      invariant sourceCount <= i <= |error.argTypes|
      invariant w.tokens == start + MissingLines(error.argSources, error.argTypes, i)
    {
      AppendAssoc(start, MissingLines(error.argSources, error.argTypes, i), MissingLine(error.argSources, error.argTypes, i));
      PrintUnknownLine(w, error.argTypes[i]);
      i := i + 1;
    }
  }

  /** A line for an argument type with its source. */
  method PrintSourceLine(w: TokenWriter, source: Id, typedef: TypeName)
    modifies w
    ensures w.tokens == old(w.tokens) + [Eol, LayoutPart(" |> "), DefinitionPart(source), TextPart(": "), TypenamePart(typedef)]
  {
    w.WriteEol();
    w.WriteLayout(" |> ");
    w.WriteDefinition(source);
    w.WriteText(": ");
    w.WriteTypename(typedef);
  }

  /** A line for an argument type no source was given for. */
  method PrintUnknownLine(w: TokenWriter, typedef: TypeName)
    modifies w
    ensures w.tokens == old(w.tokens) + [Eol, LayoutPart(" |> "), ErrorPart("?"), TextPart(": "), TypenamePart(typedef)]
  {
    w.WriteEol();
    w.WriteLayout(" |> ");
    w.WriteError("?");
    w.WriteText(": ");
    w.WriteTypename(typedef);
  }

  /** The i-th line ends one line and is marked "?" exactly when no source feeds the
      type. */
  lemma MissingLineCounts(sources: seq<Id>, types: seq<TypeName>, i: nat)
    requires i < |types|
    ensures Count(MissingLine(sources, types, i), Eol) == 1
    ensures Count(MissingLine(sources, types, i), ErrorPart("?")) == (if i < |sources| then 0 else 1)
  {
    var line := MissingLine(sources, types, i);
    assert line == [] + [Eol] + line[1..];
    CountAround([], Eol, line[1..], Eol);
    assert line == [Eol, LayoutPart(" |> ")] + [line[2]] + [TextPart(": "), TypenamePart(types[i])];
    CountAround([Eol, LayoutPart(" |> ")], line[2], [TextPart(": "), TypenamePart(types[i])], ErrorPart("?"));
  }

  /** The i-th line names the source that feeds the type, if there is one. */
  lemma MissingLineNames(sources: seq<Id>, types: seq<TypeName>, i: nat)
    requires i < |types|
    ensures Names(MissingLine(sources, types, i)) == (if i < |sources| then [sources[i]] else [])
  {
    var line := MissingLine(sources, types, i);
    assert line == [Eol, LayoutPart(" |> ")] + [line[2]] + [TextPart(": "), TypenamePart(types[i])];
    NamesAround([Eol, LayoutPart(" |> ")], line[2], [TextPart(": "), TypenamePart(types[i])]);
  }

  lemma MissingLinesMarked(sources: seq<Id>, types: seq<TypeName>, n: nat)
    requires n <= |types|
    ensures Count(MissingLines(sources, types, n), ErrorPart("?")) == (if n <= |sources| then 0 else n - |sources|)
  {
    if n <= |sources| {
      PairedLinesUnmarked(sources, types, n);
    } else {
      UnpairedLinesMarked(sources, types, n);
    }
  }

  lemma {:induction false} PairedLinesUnmarked(sources: seq<Id>, types: seq<TypeName>, n: nat)
    requires n <= |types| && n <= |sources|
    ensures Count(MissingLines(sources, types, n), ErrorPart("?")) == 0
  {
    if n > 0 {
      var prev := MissingLines(sources, types, n - 1);
      var line := MissingLine(sources, types, n - 1);
      assert MissingLines(sources, types, n) == prev + line;
      PairedLinesUnmarked(sources, types, n - 1);
      MissingLineCounts(sources, types, n - 1);
      CountAppend(prev, line, ErrorPart("?"));
    }
  }

  lemma {:induction false} UnpairedLinesMarked(sources: seq<Id>, types: seq<TypeName>, n: nat)
    requires |sources| <= n <= |types|
    ensures Count(MissingLines(sources, types, n), ErrorPart("?")) == n - |sources|
  {
    if n == |sources| {
      PairedLinesUnmarked(sources, types, n);
    } else {
      var prev := MissingLines(sources, types, n - 1);
      var line := MissingLine(sources, types, n - 1);
      assert MissingLines(sources, types, n) == prev + line;
      UnpairedLinesMarked(sources, types, n - 1);
      assert Count(prev, ErrorPart("?")) == n - 1 - |sources|;
      MissingLineCounts(sources, types, n - 1);
      assert Count(line, ErrorPart("?")) == 1;
      CountAppend(prev, line, ErrorPart("?"));
    }
  }

  lemma {:induction false} MissingLinesEols(sources: seq<Id>, types: seq<TypeName>, n: nat)
    requires n <= |types|
    ensures Count(MissingLines(sources, types, n), Eol) == n
  {
    if n > 0 {
      var prev := MissingLines(sources, types, n - 1);
      var line := MissingLine(sources, types, n - 1);
      assert MissingLines(sources, types, n) == prev + line;
      MissingLinesEols(sources, types, n - 1);
      assert Count(prev, Eol) == n - 1;
      MissingLineCounts(sources, types, n - 1);
      assert Count(line, Eol) == 1;
      CountAppend(prev, line, Eol);
    }
  }

  lemma {:induction false} MissingLinesNames(sources: seq<Id>, types: seq<TypeName>, n: nat)
    requires n <= |types|
    ensures Names(MissingLines(sources, types, n)) == sources[..if n <= |sources| then n else |sources|]
  {
    if n > 0 {
      MissingLinesNames(sources, types, n - 1);
      MissingLineNames(sources, types, n - 1);
      NamesAppend(MissingLines(sources, types, n - 1), MissingLine(sources, types, n - 1));
      if n <= |sources| {
        assert sources[..n] == sources[..n - 1] + [sources[n - 1]];
      }
    }
  }

  // ---------------------------------------------------------------------------
  // Extra arguments

  /** The tokens for the leading extras: each name followed by ", ". */
  function HeadTokens(heads: seq<Id>): seq<Token>
  {
    if heads == [] then []
    else HeadTokens(heads[..|heads| - 1]) + [DefinitionPart(heads[|heads| - 1]), TextPart(", ")]
  }

  /** One extra: "does not need extra argument X"; several: the leading ones separated
      by ", ", then the second-to-last, " and ", and the last. */
  function ExtraTokens(extras: seq<Id>): seq<Token>
    requires |extras| >= 1
  {
    var len := |extras|;
    if len == 1 then [TextPart(" does not need extra argument "), DefinitionPart(extras[0])]
    else
      [TextPart(" does not need extra arguments ")] + HeadTokens(extras[..len - 2])
        + [DefinitionPart(extras[len - 2]), TextPart(" and "), DefinitionPart(extras[len - 1])]
  }

  lemma {:induction false} HeadTokensNames(heads: seq<Id>)
    ensures Names(HeadTokens(heads)) == heads
  {
    if heads != [] {
      var init := heads[..|heads| - 1];
      var x := heads[|heads| - 1];
      HeadTokensNames(init);
      NamesAppend(HeadTokens(init), [DefinitionPart(x), TextPart(", ")]);
      assert [DefinitionPart(x), TextPart(", ")] == [] + [DefinitionPart(x)] + [TextPart(", ")];
      NamesAround([], DefinitionPart(x), [TextPart(", ")]);
    }
  }

  /** The extras are all named, once each and in order. */
  lemma ExtraTokensNames(extras: seq<Id>)
    requires |extras| >= 1
    ensures Names(ExtraTokens(extras)) == extras
  {
    if |extras| == 1 {
      OneExtraNamed(extras);
    } else {
      ExtrasNamed(extras);
    }
  }

  lemma OneExtraNamed(extras: seq<Id>)
    requires |extras| == 1
    ensures Names(ExtraTokens(extras)) == extras
  {
    NamesAround([TextPart(" does not need extra argument ")], DefinitionPart(extras[0]), []);
    assert ExtraTokens(extras) == [TextPart(" does not need extra argument ")] + [DefinitionPart(extras[0])] + [];
  }

  lemma ExtrasNamed(extras: seq<Id>)
    requires |extras| >= 2
    ensures Names(ExtraTokens(extras)) == extras
  {
    var len := |extras|;
    var lead := [TextPart(" does not need extra arguments ")];
    var heads := HeadTokens(extras[..len - 2]);
    var a, b := extras[len - 2], extras[len - 1];
    var last := [DefinitionPart(a), TextPart(" and "), DefinitionPart(b)];
    assert ExtraTokens(extras) == lead + heads + last;
    NoNames(lead);
    NamesAppend(lead, heads);
    NamesAppend(lead + heads, last);
    HeadTokensNames(extras[..len - 2]);
    LastTwoNamed(a, b);
    SplitLastTwo(extras);
  }

  lemma LastTwoNamed(a: Id, b: Id)
    ensures Names([DefinitionPart(a), TextPart(" and "), DefinitionPart(b)]) == [a, b]
  {
    var last := [DefinitionPart(a), TextPart(" and "), DefinitionPart(b)];
    assert last == ([] + [DefinitionPart(a)] + [TextPart(" and ")]) + ([] + [DefinitionPart(b)] + []);
    NamesAround([], DefinitionPart(a), [TextPart(" and ")]);
    NamesAround([], DefinitionPart(b), []);
    NamesAppend([] + [DefinitionPart(a)] + [TextPart(" and ")], [] + [DefinitionPart(b)] + []);
  }

  lemma SplitLastTwo(s: seq<Id>)
    requires |s| >= 2
    ensures s == s[..|s| - 2] + [s[|s| - 2], s[|s| - 1]]
  {
    assert s[|s| - 2..] == [s[|s| - 2], s[|s| - 1]];
    assert s == s[..|s| - 2] + s[|s| - 2..];
  }

  // ---------------------------------------------------------------------------
  // A single error

  /** What `pretty_print_single` writes for an argument-count error. */
  function CountMismatchTokens(e: ArgumentCountMismatch): seq<Token>
  {
    [ErrorPart("Error: "), TextPart("the definition "), DefinitionPart(e.id)] + CountMismatchBody(e) + [Eol]
  }

  /** The extras named, or the count of undefined dependencies and their lines. */
  function CountMismatchBody(e: ArgumentCountMismatch): seq<Token>
  {
    if |e.argSources| > |e.argTypes| then ExtraTokens(e.argSources[|e.argTypes|..])
    else
      [TextPart(" has "), NumberPart(NatToString(|e.argTypes| - |e.argSources|)), TextPart(" undefined dependencies:")]
      + MissingLines(e.argSources, e.argTypes, |e.argTypes|)
  }

  /** The line for one alias: its count, " of " and the definition. */
  function AliasLine(d: Duplicate): seq<Token>
  {
    [LayoutPart(" |> "), NumberPart(NatToString(d.count)), TextPart(" of ")] + DefinitionTokens(d.definition) + [Eol]
  }

  function AliasLines(aliases: map<string, Duplicate>, keys: seq<string>): seq<Token>
    requires forall j :: 0 <= j < |keys| ==> keys[j] in aliases
  {
    if keys == [] then [] else AliasLines(aliases, keys[..|keys| - 1]) + AliasLine(aliases[keys[|keys| - 1]])
  }

  /** What `pretty_print_single` writes for duplicate definitions: the id of the alias
      with the least key, then one line per alias in key order. */
  ghost function DuplicateTokens(d: DuplicateDefinitions): seq<Token>
    requires d.aliases != map[]
  {
    var keys := SortedKeys(d.aliases.Keys);
    SortedKeysMembers(d.aliases.Keys);
    assert keys[0] in d.aliases.Keys;
    assert forall j :: 0 <= j < |keys| ==> keys[j] in d.aliases;
    DuplicateHeading(d.aliases[keys[0]].definition.id) + AliasLines(d.aliases, keys)
  }

  function DuplicateHeading(id: Id): seq<Token>
  {
    [ErrorPart("Error: "), TextPart("the name "), DefinitionPart(id), TextPart(" is not unique:"), Eol]
  }

  /** The errors `pretty_print_single` handles: its match covers duplicate definitions
      (whose first alias it unwraps) and argument-count errors only. */
  predicate Printable(e: CompileError)
  {
    (e.Duplicates? && e.duplicates.aliases != map[]) || e.CountMismatch?
  }

  ghost function SingleTokens(e: CompileError): seq<Token>
    requires Printable(e)
  {
    if e.Duplicates? then DuplicateTokens(e.duplicates) else CountMismatchTokens(e.mismatch)
  }

  /** `pretty_print_single`. */
  method PrettyPrintSingle(w: TokenWriter, error: CompileError)
    requires Printable(error)
    modifies w
    ensures w.tokens == old(w.tokens) + SingleTokens(error)
  {
    if error.Duplicates? {
      PrintDuplicates(w, error.duplicates);
    } else {
      PrintCountMismatch(w, error.mismatch);
    }
  }

  method PrintDuplicates(w: TokenWriter, error: DuplicateDefinitions)
    requires error.aliases != map[]
    modifies w
    ensures w.tokens == old(w.tokens) + DuplicateTokens(error)
  {
    var keys := SortedElements(error.aliases.Keys);
    DuplicateTokensUnfold(error, keys);
    var first := error.aliases[keys[0]].definition.id;
    PrintHeading(w, first);
    PrintAliasLines(w, error.aliases, keys);
  }

  method PrintHeading(w: TokenWriter, id: Id)
    modifies w
    ensures w.tokens == old(w.tokens) + DuplicateHeading(id)
  {
    w.WriteError("Error: ");
    w.WriteText("the name ");
    w.WriteDefinition(id);
    w.WriteText(" is not unique:");
    w.WriteEol();
  }

  /** The duplicate listing, one line per key, in the order of `keys`. */
  method PrintAliasLines(w: TokenWriter, aliases: map<string, Duplicate>, keys: seq<string>)
    requires forall j :: 0 <= j < |keys| ==> keys[j] in aliases
    modifies w
    ensures w.tokens == old(w.tokens) + AliasLines(aliases, keys)
  {
    ghost var start := w.tokens;
    for i := 0 to |keys|
      invariant w.tokens == start + AliasLines(aliases, keys[..i])
    {
      AliasLinesStep(aliases, keys, i);
      AppendAssoc(start, AliasLines(aliases, keys[..i]), AliasLine(aliases[keys[i]]));
      PrintAliasLine(w, aliases[keys[i]]);
    }
    assert keys[..|keys|] == keys;
  }

  lemma DuplicateTokensUnfold(d: DuplicateDefinitions, keys: seq<string>)
    requires d.aliases != map[] && keys == SortedKeys(d.aliases.Keys)
    ensures |keys| > 0 && forall j :: 0 <= j < |keys| ==> keys[j] in d.aliases
    ensures DuplicateTokens(d) == DuplicateHeading(d.aliases[keys[0]].definition.id) + AliasLines(d.aliases, keys)
  {
    SortedKeysMembers(d.aliases.Keys);
    assert keys[0] in d.aliases.Keys;
  }

  /** One line of the duplicate listing: the count, " of " and the definition. */
  method PrintAliasLine(w: TokenWriter, duplicate: Duplicate)
    modifies w
    ensures w.tokens == old(w.tokens) + AliasLine(duplicate)
  {
    ghost var before := w.tokens;
    ghost var pre := [LayoutPart(" |> "), NumberPart(NatToString(duplicate.count)), TextPart(" of ")];
    w.WriteLayout(" |> ");
    w.WriteNumber(NatToString(duplicate.count));
    w.WriteText(" of ");
    assert w.tokens == before + pre;
    PrettyPrintDefinition(w, duplicate.definition);
    w.WriteEol();
    Regroup(before, pre, DefinitionTokens(duplicate.definition), [Eol]);
  }

  lemma Regroup(before: seq<Token>, a: seq<Token>, b: seq<Token>, c: seq<Token>)
    ensures before + a + b + c == before + (a + b + c)
  {
  }

  lemma AliasLinesStep(aliases: map<string, Duplicate>, keys: seq<string>, i: nat)
    requires i < |keys| && forall j :: 0 <= j < |keys| ==> keys[j] in aliases
    ensures AliasLines(aliases, keys[..i + 1]) == AliasLines(aliases, keys[..i]) + AliasLine(aliases[keys[i]])
  {
    assert keys[..i + 1][..i] == keys[..i];
  }

  method PrintCountMismatch(w: TokenWriter, error: ArgumentCountMismatch)
    modifies w
    ensures w.tokens == old(w.tokens) + CountMismatchTokens(error)
  {
    ghost var start := w.tokens;
    PrintDefinitionHeading(w, error.id);
    if |error.argSources| > |error.argTypes| {
      var unnecessarySources := error.argSources[|error.argTypes|..];
      PrintExtras(w, unnecessarySources);
    } else {
      PrintMissing(w, error);
    }
    ghost var heading := [ErrorPart("Error: "), TextPart("the definition "), DefinitionPart(error.id)];
    assert w.tokens == start + heading + CountMismatchBody(error);
    w.WriteEol();
    AppendAssoc(start, heading, CountMismatchBody(error));
    AppendAssoc(start, heading + CountMismatchBody(error), [Eol]);
  }

  method PrintDefinitionHeading(w: TokenWriter, id: Id)
    modifies w
    ensures w.tokens == old(w.tokens) + [ErrorPart("Error: "), TextPart("the definition "), DefinitionPart(id)]
  {
    w.WriteError("Error: ");
    w.WriteText("the definition ");
    w.WriteDefinition(id);
  }

  /** The count of undefined dependencies and a line per argument type. */
  method PrintMissing(w: TokenWriter, error: ArgumentCountMismatch)
    requires |error.argSources| <= |error.argTypes|
    modifies w
    ensures w.tokens == old(w.tokens) + CountMismatchBody(error)
  {
    ghost var start := w.tokens;
    w.WriteText(" has ");
    w.WriteNumber(NatToString(|error.argTypes| - |error.argSources|));
    w.WriteText(" undefined dependencies:");
    ghost var count := [TextPart(" has "), NumberPart(NatToString(|error.argTypes| - |error.argSources|)), TextPart(" undefined dependencies:")];
    assert w.tokens == start + count;
    PrettyPrintMissingDependencies(w, error);
    AppendAssoc(start, count, MissingLines(error.argSources, error.argTypes, |error.argTypes|));
  }

  method PrintExtras(w: TokenWriter, extras: seq<Id>)
    requires |extras| >= 1
    modifies w
    ensures w.tokens == old(w.tokens) + ExtraTokens(extras)
  {
    var len := |extras|;
    ghost var start := w.tokens;
    if len == 1 {
      w.WriteText(" does not need extra argument ");
      w.WriteDefinition(extras[0]);
      AppendAssoc(start, [TextPart(" does not need extra argument ")], [DefinitionPart(extras[0])]);
    } else {
      ghost var lead := [TextPart(" does not need extra arguments ")];
      ghost var heads := HeadTokens(extras[..len - 2]);
      ghost var last := [DefinitionPart(extras[len - 2]), TextPart(" and "), DefinitionPart(extras[len - 1])];
      w.WriteText(" does not need extra arguments ");
      PrintHeads(w, extras[..len - 2]);
      PrintLastTwo(w, extras[len - 2], extras[len - 1]);
      assert w.tokens == start + lead + heads + last;
      AppendAssoc(start, lead, heads);
      AppendAssoc(start, lead + heads, last);
    }
  }

  /** The last two extras, joined by " and ". */
  method PrintLastTwo(w: TokenWriter, middle: Id, tail: Id)
    modifies w
    ensures w.tokens == old(w.tokens) + [DefinitionPart(middle), TextPart(" and "), DefinitionPart(tail)]
  {
    w.WriteDefinition(middle);
    w.WriteText(" and ");
    w.WriteDefinition(tail);
  }

  /** The leading extras, each followed by ", ". */
  method PrintHeads(w: TokenWriter, heads: seq<Id>)
    modifies w
    ensures w.tokens == old(w.tokens) + HeadTokens(heads)
  {
    ghost var start := w.tokens;
    for i := 0 to |heads|
      invariant w.tokens == start + HeadTokens(heads[..i])
    {
      assert heads[..i + 1][..i] == heads[..i];
      AppendAssoc(start, HeadTokens(heads[..i]), [DefinitionPart(heads[i]), TextPart(", ")]);
      w.WriteDefinition(heads[i]);
      w.WriteText(", ");
    }
    assert heads[..|heads|] == heads;
  }

  // ---------------------------------------------------------------------------
  // What the printed errors say

  /** With too many sources, the definitions named are the failing definition and
      exactly the sources at positions at or beyond the number of argument types. */
  lemma ExtraSourcesNamed(e: ArgumentCountMismatch)
    requires |e.argSources| > |e.argTypes|
    ensures Names(CountMismatchTokens(e)) == [e.id] + e.argSources[|e.argTypes|..]
  {
    var head := [ErrorPart("Error: "), TextPart("the definition ")] + [DefinitionPart(e.id)] + [];
    var extras := ExtraTokens(e.argSources[|e.argTypes|..]);
    assert CountMismatchTokens(e) == head + extras + [Eol];
    NamesAround([ErrorPart("Error: "), TextPart("the definition ")], DefinitionPart(e.id), []);
    NamesAppend(head, extras);
    NamesAppend(head + extras, [Eol]);
    NoNames([Eol]);
    ExtraTokensNames(e.argSources[|e.argTypes|..]);
  }

  /** With too few sources, the number announced equals the number of lines marked "?",
      every argument type gets a line, and the sources are named in order. */
  lemma MissingCountAnnounced(e: ArgumentCountMismatch)
    requires |e.argSources| <= |e.argTypes|
    ensures var t := CountMismatchTokens(e);
      var n := |e.argTypes| - |e.argSources|;
      && t[4] == NumberPart(NatToString(n))
      && Count(t, ErrorPart("?")) == n
      && Count(t, Eol) == |e.argTypes| + 1
      && Names(t) == [e.id] + e.argSources
  {
    MissingNumberShown(e);
    MissingMarksCounted(e);
    MissingEolsCounted(e);
    MissingSourcesNamed(e);
  }

  lemma MissingNumberShown(e: ArgumentCountMismatch)
    requires |e.argSources| <= |e.argTypes|
    ensures CountMismatchTokens(e)[4] == NumberPart(NatToString(|e.argTypes| - |e.argSources|))
  {
    MissingShape(e);
  }

  lemma MissingMarksCounted(e: ArgumentCountMismatch)
    requires |e.argSources| <= |e.argTypes|
    ensures Count(CountMismatchTokens(e), ErrorPart("?")) == |e.argTypes| - |e.argSources|
  {
    MissingShape(e);
    MissingLinesMarked(e.argSources, e.argTypes, |e.argTypes|);
    CountThrough(e.id, |e.argTypes| - |e.argSources|, MissingLines(e.argSources, e.argTypes, |e.argTypes|), ErrorPart("?"));
  }

  lemma MissingEolsCounted(e: ArgumentCountMismatch)
    requires |e.argSources| <= |e.argTypes|
    ensures Count(CountMismatchTokens(e), Eol) == |e.argTypes| + 1
  {
    MissingShape(e);
    MissingLinesEols(e.argSources, e.argTypes, |e.argTypes|);
    CountThrough(e.id, |e.argTypes| - |e.argSources|, MissingLines(e.argSources, e.argTypes, |e.argTypes|), Eol);
  }

  lemma MissingSourcesNamed(e: ArgumentCountMismatch)
    requires |e.argSources| <= |e.argTypes|
    ensures Names(CountMismatchTokens(e)) == [e.id] + e.argSources
  {
    MissingShape(e);
    MissingLinesNames(e.argSources, e.argTypes, |e.argTypes|);
    NamesThrough(e.id, |e.argTypes| - |e.argSources|, MissingLines(e.argSources, e.argTypes, |e.argTypes|));
    assert e.argSources[..|e.argSources|] == e.argSources;
  }

  /** With too few sources, the tokens are the heading, a line per argument type and
      an end of line. */
  lemma MissingShape(e: ArgumentCountMismatch)
    requires |e.argSources| <= |e.argTypes|
    ensures var n := |e.argTypes| - |e.argSources|;
      CountMismatchTokens(e) == MissingHeading(e.id, n) + MissingLines(e.argSources, e.argTypes, |e.argTypes|) + [Eol]
  {
  }

  /** The opening of an argument-count error with too few sources. */
  function MissingHeading(id: Id, n: nat): seq<Token>
  {
    [ErrorPart("Error: "), TextPart("the definition "), DefinitionPart(id),
     TextPart(" has "), NumberPart(NatToString(n)), TextPart(" undefined dependencies:")]
  }

  lemma CountThrough(id: Id, n: nat, lines: seq<Token>, t: Token)
    requires t == Eol || t == ErrorPart("?")
    ensures Count(MissingHeading(id, n) + lines + [Eol], t) == Count(lines, t) + (if t == Eol then 1 else 0)
  {
    var head := MissingHeading(id, n);
    CountAbsent(head, t);
    CountAppend(head, lines, t);
    CountAppend(head + lines, [Eol], t);
    assert [Eol] == [] + [Eol] + [];
    CountAround([], Eol, [], t);
  }

  lemma NamesThrough(id: Id, n: nat, lines: seq<Token>)
    ensures Names(MissingHeading(id, n) + lines + [Eol]) == [id] + Names(lines)
  {
    var head := MissingHeading(id, n);
    HeadingNames(id, n);
    NamesAppend(head, lines);
    NamesAppend(head + lines, [Eol]);
    NoNames([Eol]);
  }

  lemma HeadingNames(id: Id, n: nat)
    ensures Names(MissingHeading(id, n)) == [id]
  {
    var tail := [TextPart(" has "), NumberPart(NatToString(n)), TextPart(" undefined dependencies:")];
    assert MissingHeading(id, n) == [ErrorPart("Error: "), TextPart("the definition ")] + [DefinitionPart(id)] + tail;
    NamesAround([ErrorPart("Error: "), TextPart("the definition ")], DefinitionPart(id), tail);
  }

  /** Every alias holds a definition of the duplicated id. */
  lemma {:induction false} AliasesNameTheId(id: Id, dups: seq<DefinitionCandidate>)
    ensures forall h :: h in Aliases(id, dups) ==> Aliases(id, dups)[h].definition.id == id
  {
    if dups != [] {
      AliasesNameTheId(id, dups[..|dups| - 1]);
    }
  }

  /** The override validator's errors can always be printed, and each names the id
      that was defined more than once. */
  lemma OverrideErrorPrintable(st: RegistryState, id: Id)
    requires id in st.overridden && id in st.definitions
    ensures Printable(OverrideErrorOf(st, id))
    ensures SingleTokens(OverrideErrorOf(st, id))[2] == DefinitionPart(id)
  {
    var dups := st.overridden[id] + [st.definitions[id]];
    var d := DuplicateDefinitions(Aliases(id, dups));
    assert OverrideErrorOf(st, id) == Duplicates(d);
    AliasesNotEmpty(id, dups);
    AliasesNameTheId(id, dups);
    var keys := SortedKeys(d.aliases.Keys);
    DuplicateTokensUnfold(d, keys);
  }

  /** A non-empty list of candidates leaves at least one alias. */
  lemma AliasesNotEmpty(id: Id, dups: seq<DefinitionCandidate>)
    requires dups != []
    ensures Aliases(id, dups) != map[]
  {
    AliasCountsSum(id, dups);
    assert TotalCount(map[]) == 0;
  }

  /** The argument-count validator's errors can always be printed. */
  lemma CountErrorPrintable(st: RegistryState, id: Id)
    requires id in st.definitions
    ensures Printable(CountErrorOf(st, id))
  {
  }

  /** Duplicate definitions print one line per alias after the heading line. */
  lemma DuplicateLineCount(d: DuplicateDefinitions)
    requires d.aliases != map[]
    ensures Count(DuplicateTokens(d), Eol) == |d.aliases.Keys| + 1
  {
    var keys := SortedKeys(d.aliases.Keys);
    DuplicateTokensUnfold(d, keys);
    var id := d.aliases[keys[0]].definition.id;
    var heading := DuplicateHeading(id);
    assert heading == [ErrorPart("Error: "), TextPart("the name "), DefinitionPart(id), TextPart(" is not unique:")] + [Eol] + [];
    CountAround([ErrorPart("Error: "), TextPart("the name "), DefinitionPart(id), TextPart(" is not unique:")], Eol, [], Eol);
    CountAppend(heading, AliasLines(d.aliases, keys), Eol);
    AliasLinesEols(d.aliases, keys);
  }

  lemma {:induction false} AliasLinesEols(aliases: map<string, Duplicate>, keys: seq<string>)
    requires forall j :: 0 <= j < |keys| ==> keys[j] in aliases
    ensures Count(AliasLines(aliases, keys), Eol) == |keys|
  {
    if keys != [] {
      var init := keys[..|keys| - 1];
      AliasLinesEols(aliases, init);
      var d := aliases[keys[|keys| - 1]];
      AliasLineOneEol(d);
      CountAppend(AliasLines(aliases, init), AliasLine(d), Eol);
    }
  }

  lemma AliasLineOneEol(d: Duplicate)
    ensures Count(AliasLine(d), Eol) == 1
  {
    var pre := [LayoutPart(" |> "), NumberPart(NatToString(d.count)), TextPart(" of ")];
    var def := DefinitionTokens(d.definition);
    ArgItemsNoEol(d.definition.args, |d.definition.args|);
    assert Eol !in def;
    assert AliasLine(d) == (pre + def) + [Eol] + [];
    CountAround(pre + def, Eol, [], Eol);
  }

  lemma {:induction false} ArgItemsNoEol(args: seq<Argument>, n: nat)
    requires n <= |args|
    ensures Eol !in ArgItems(args, n)
  {
    if n > 0 {
      ArgItemsNoEol(args, n - 1);
    }
  }
}
