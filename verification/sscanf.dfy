/** `StringExtensions.sscanf`, a C-style scanner. The pattern is first cut
    into elements (runs of literal text and conversion directives); the
    elements are then matched against the input from left to right, and
    every conversion that succeeds assigns the next output variable. The
    variables are modelled by the list of fields assigned, in order. */
module Scanf {
  import opened Results
  import opened StringExtensions

  // ---------------------------------------------------------------------
  // Pattern elements

  /** The conversions the tokenizer recognises; `BigLF` is `%Lf`. */
  datatype Spec = D | I | F | O | S | LF | LD | BigLF | HHI | HHD | HI | HD

  /** One element of a tokenized pattern: literal text, the `%` that `%%`
      stands for, or a conversion. */
  datatype Elem = Text(text: string) | Percent | Conv(spec: Spec)

  /** What a directive starting at a `%` adds (`None` for the letter
      combinations that are skipped without a trace) and how many pattern
      characters it spans. */
  datatype Directive = Directive(elem: Option<Elem>, width: nat)

  /** The letters of a conversion as they are written after the `%`. */
  function Name(spec: Spec): string {
    match spec
    case D => "d"
    case I => "i"
    case F => "f"
    case O => "o"
    case S => "s"
    case LF => "lf"
    case LD => "ld"
    case BigLF => "Lf"
    case HHI => "hhi"
    case HHD => "hhd"
    case HI => "hi"
    case HD => "hd"
  }

  /** The characters allowed right after a `%`. */
  const KNOWN: string := "difoslLh%"

  /** `charAt`, which throws past the end. */
  function At(p: string, k: nat): Result<char> {
    if k < |p| then Ok(p[k]) else Err(StringIndexOutOfBounds)
  }

  /** The directive at the start of `p`, which starts with `%`. */
  function ReadDirective(p: string): (r: Result<Directive>)
    requires p != [] && p[0] == '%'
    ensures r.Ok? ==> 2 <= r.value.width <= |p|
    ensures r.Ok? && r.value.elem.Some? ==> !r.value.elem.value.Text?
    ensures r == Err(IllegalArgument) <==> |p| >= 2 && p[1] !in KNOWN
    ensures r.Err? && r.fault != IllegalArgument ==> r.fault == StringIndexOutOfBounds
    ensures |p| == 1 ==> r == Err(StringIndexOutOfBounds)
  {
    var c2 :- At(p, 1);
    if c2 == 'd' then Ok(Directive(Some(Conv(D)), 2))
    else if c2 == 'i' then Ok(Directive(Some(Conv(I)), 2))
    else if c2 == 'f' then Ok(Directive(Some(Conv(F)), 2))
    else if c2 == 'o' then Ok(Directive(Some(Conv(O)), 2))
    else if c2 == 's' then Ok(Directive(Some(Conv(S)), 2))
    else if c2 == 'l' then
      var c3 :- At(p, 2);
      if c3 == 'f' then Ok(Directive(Some(Conv(LF)), 3))
      else if c3 == 'd' then Ok(Directive(Some(Conv(LD)), 3))
      else if c3 == 'i' then Ok(Directive(Some(Conv(LD)), 3))
      else if c3 == 'l' then
        var c4 :- At(p, 3);
        if c4 == 'f' then Ok(Directive(Some(Conv(BigLF)), 4)) else Ok(Directive(None, 4))
      else Ok(Directive(None, 3))
    else if c2 == 'L' then
      var c3 :- At(p, 2);
      if c3 == 'f' then Ok(Directive(Some(Conv(BigLF)), 3)) else Ok(Directive(None, 3))
    else if c2 == 'h' then
      var c3 :- At(p, 2);
      if c3 == 'h' then
        var c4 :- At(p, 3);
        if c4 == 'i' then Ok(Directive(Some(Conv(HHI)), 4))
        else if c4 == 'd' then Ok(Directive(Some(Conv(HHD)), 4))
        else Ok(Directive(None, 4))
      else if c3 == 'i' then Ok(Directive(Some(Conv(HI)), 3))
      else if c3 == 'd' then Ok(Directive(Some(Conv(HD)), 3))
      else Ok(Directive(None, 3))
    else if c2 == '%' then Ok(Directive(Some(Percent), 2))
    else Err(IllegalArgument)
  }

  /** Pending literal text, as the element it becomes (none when empty). */
  function Flush(lit: string): seq<Elem> {
    if lit == [] then [] else [Text(lit)]
  }

  function Added(e: Option<Elem>): seq<Elem> {
    if e.Some? then [e.value] else []
  }

  /** Literal elements are never empty and never contain `%`. */
  predicate Literals(es: seq<Elem>) {
    forall k :: 0 <= k < |es| && es[k].Text? ==> es[k].text != [] && '%' !in es[k].text
  }

  /** The tokenizer: `lit` is the literal text collected so far, flushed
      at every `%` and at the end. A bad directive aborts the whole call. */
  function Tokenize(p: string, lit: string): (r: Result<seq<Elem>>)
    requires '%' !in lit
    ensures r.Ok? ==> Literals(r.value)
    decreases |p|
  {
    if p == [] then Ok(Flush(lit))
    else if p[0] == '%' then
      var dir :- ReadDirective(p);
      var rest :- Tokenize(p[dir.width..], "");
      Ok(Flush(lit) + Added(dir.elem) + rest)
    else Tokenize(p[1..], lit + [p[0]])
  }

  /** How many conversions the pattern holds; `%%` is not one. */
  function Conversions(es: seq<Elem>): nat {
    if es == [] then 0 else (if es[0].Conv? then 1 else 0) + Conversions(es[1..])
  }

  /** Writes elements back as a pattern. */
  function Render(es: seq<Elem>): string {
    if es == [] then "" else RenderElem(es[0]) + Render(es[1..])
  }

  function RenderElem(e: Elem): string {
    match e
    case Text(t) => t
    case Percent => "%%"
    case Conv(spec) => "%" + Name(spec)
  }

  /** The string the source keeps for an element in its pattern list. */
  function Spelled(e: Elem): string {
    match e
    case Text(t) => t
    case Percent => "%"
    case Conv(spec) => "%" + Name(spec)
  }

  /** Elements as the tokenizer can produce them from a pattern that spells
      every directive in its canonical form: literal runs are maximal. */
  predicate Canonical(es: seq<Elem>) {
    Literals(es) && forall k :: 0 <= k < |es| - 1 && es[k].Text? ==> !es[k + 1].Text?
  }

  /** Literal text is gathered into the pending literal. */
  lemma {:induction false} TokenizeText(t: string, rest: string, lit: string)
    requires '%' !in t && '%' !in lit
    ensures Tokenize(t + rest, lit) == Tokenize(rest, lit + t)
  {
    if t == [] {
      assert t + rest == rest && lit + t == lit;
    } else {
      assert (t + rest)[0] == t[0];
      assert (t + rest)[1..] == t[1..] + rest;
      TokenizeText(t[1..], rest, lit + [t[0]]);
      assert lit + [t[0]] + t[1..] == lit + t;
    }
  }

  /** A rendered directive reads back as itself. */
  lemma ReadRendered(e: Elem, tail: string)
    requires !e.Text?
    ensures RenderElem(e) != [] && (RenderElem(e) + tail)[0] == '%'
    ensures ReadDirective(RenderElem(e) + tail) == Ok(Directive(Some(e), |RenderElem(e)|))
  {
    match e
    case Percent =>
      var p := RenderElem(e) + tail;
      assert p[0] == '%' && p[1] == '%';
    case Conv(spec) =>
      match spec
      case D => ReadOneLetter(spec, tail);
      case I => ReadOneLetter(spec, tail);
      case F => ReadOneLetter(spec, tail);
      case O => ReadOneLetter(spec, tail);
      case S => ReadOneLetter(spec, tail);
      case LF => ReadWide(spec, tail);
      case LD => ReadWide(spec, tail);
      case BigLF => ReadWide(spec, tail);
      case _ => ReadNarrow(spec, tail);
  }

  lemma ReadOneLetter(spec: Spec, tail: string)
    requires spec in {D, I, F, O, S}
    ensures ReadDirective(RenderElem(Conv(spec)) + tail) == Ok(Directive(Some(Conv(spec)), 2))
  {
    var p := RenderElem(Conv(spec)) + tail;
    assert p[0] == '%' && p[1] == Name(spec)[0];
  }

  lemma ReadWide(spec: Spec, tail: string)
    requires spec in {LF, LD, BigLF}
    ensures ReadDirective(RenderElem(Conv(spec)) + tail) == Ok(Directive(Some(Conv(spec)), 3))
  {
    var p := RenderElem(Conv(spec)) + tail;
    assert p[0] == '%' && p[1] == Name(spec)[0] && p[2] == Name(spec)[1];
  }

  lemma ReadNarrow(spec: Spec, tail: string)
    requires spec in {HHI, HHD, HI, HD}
    ensures ReadDirective(RenderElem(Conv(spec)) + tail) == Ok(Directive(Some(Conv(spec)), |RenderElem(Conv(spec))|))
  {
    var p := RenderElem(Conv(spec)) + tail;
    var n := Name(spec);
    assert p[0] == '%' && p[1] == n[0] && p[2] == n[1];
    if |n| == 3 { assert p[3] == n[2]; }
  }

  /** Tokenizing a canonically rendered pattern gives its elements back. */
  lemma {:induction false} TokenizeRender(es: seq<Elem>, lit: string)
    requires Canonical(es) && '%' !in lit
    requires lit == [] || es == [] || !es[0].Text?
    ensures Tokenize(Render(es), lit) == Ok(Flush(lit) + es)
    decreases |es|
  {
    if es == [] {
      assert Render(es) == "";
      assert Flush(lit) + es == Flush(lit);
    } else {
      CanonicalTail(es);
      if es[0].Text? {
        TokenizeRender(es[1..], es[0].text);
        TokenizeTextFirst(es, lit);
      } else {
        TokenizeRender(es[1..], "");
        TokenizeDirectiveFirst(es, lit);
      }
    }
  }

  lemma CanonicalTail(es: seq<Elem>)
    requires es != [] && Canonical(es)
    ensures Canonical(es[1..])
    ensures es[0].Text? ==> es[0].text != [] && '%' !in es[0].text
    ensures es[0].Text? ==> es[1..] == [] || !es[1..][0].Text?
  {
  }

  lemma TokenizeTextFirst(es: seq<Elem>, lit: string)
    requires es != [] && es[0].Text? && lit == []
    requires es[0].text != [] && '%' !in es[0].text
    requires Tokenize(Render(es[1..]), es[0].text) == Ok(Flush(es[0].text) + es[1..])
    ensures Tokenize(Render(es), lit) == Ok(Flush(lit) + es)
  {
    var t := es[0].text;
    assert Render(es) == t + Render(es[1..]);
    TokenizeText(t, Render(es[1..]), lit);
    assert lit + t == t;
    Regroup([], es);
    assert Flush(t) == Added(Some(es[0]));
    assert [] + Added(Some(es[0])) == Flush(t) && [] + es == es;
    assert Flush(lit) + es == es;
  }

  /** A rendered directive at the front becomes its element, after the
      pending literal. */
  lemma TokenizeDirectiveFirst(es: seq<Elem>, lit: string)
    requires es != [] && !es[0].Text? && '%' !in lit
    requires Tokenize(Render(es[1..]), "") == Ok(Flush("") + es[1..])
    ensures Tokenize(Render(es), lit) == Ok(Flush(lit) + es)
  {
    var w := ReadRenderedFront(es);
    assert Flush("") + es[1..] == es[1..];
    TokenizeAtDirective(Render(es), lit, Directive(Some(es[0]), w), es[1..]);
    Regroup(Flush(lit), es);
  }

  lemma Regroup(a: seq<Elem>, es: seq<Elem>)
    requires es != []
    ensures a + Added(Some(es[0])) + es[1..] == a + es
  {
    assert [es[0]] + es[1..] == es;
  }

  /** The rendered pattern starts with the directive of its first element. */
  lemma ReadRenderedFront(es: seq<Elem>) returns (w: nat)
    requires es != [] && !es[0].Text?
    ensures Render(es) != [] && Render(es)[0] == '%'
    ensures ReadDirective(Render(es)) == Ok(Directive(Some(es[0]), w))
    ensures w <= |Render(es)| && Render(es)[w..] == Render(es[1..])
  {
    var e, tail := es[0], Render(es[1..]);
    assert Render(es) == RenderElem(e) + tail;
    ReadRendered(e, tail);
    w := |RenderElem(e)|;
    assert Render(es)[w..] == tail;
  }

  /** One step of the tokenizer at a `%`. */
  lemma TokenizeAtDirective(p: string, lit: string, d: Directive, rest: seq<Elem>)
    requires p != [] && p[0] == '%' && '%' !in lit
    requires ReadDirective(p) == Ok(d) && Tokenize(p[d.width..], "") == Ok(rest)
    ensures Tokenize(p, lit) == Ok(Flush(lit) + Added(d.elem) + rest)
  {
  }

  /** A pattern without `%` is one literal element, or none when empty. */
  lemma {:induction false} TokenizePlain(p: string)
    requires '%' !in p
    ensures Tokenize(p, "") == Ok(Flush(p))
  {
    TokenizeText(p, "", "");
    assert p + "" == p && "" + p == p;
  }

  /** The directive letters: `%li` reads as `%ld`; `%lx` is skipped
      silently; an unknown letter is an illegal argument; a `%` at the end
      of the pattern reads past it. */
  lemma DirectiveExamples()
    ensures ReadDirective("%li") == Ok(Directive(Some(Conv(LD)), 3))
    ensures ReadDirective("%lx") == Ok(Directive(None, 3))
    ensures ReadDirective("%hhx") == Ok(Directive(None, 4))
    ensures ReadDirective("%q") == Err(IllegalArgument)
    ensures ReadDirective("%") == Err(StringIndexOutOfBounds)
    ensures ReadDirective("%h") == Err(StringIndexOutOfBounds)
  {
  }

  // ---------------------------------------------------------------------
  // Runs of input characters

  /** The end of the run of digits starting at `j`. */
  function DigitEnd(s: string, j: nat): (e: nat)
    requires j <= |s|
    ensures j <= e <= |s|
    ensures forall k :: j <= k < e ==> IsDigit(s[k])
    ensures e == |s| || !IsDigit(s[e])
    decreases |s| - j
  {
    if j == |s| || !IsDigit(s[j]) then j else DigitEnd(s, j + 1)
  }

  /** The end of the run of non-whitespace characters starting at `j`. */
  function WordEnd(s: string, j: nat): (e: nat)
    requires j <= |s|
    ensures j <= e <= |s|
    ensures forall k :: j <= k < e ==> !IsWhitespace(s[k])
    ensures e == |s| || IsWhitespace(s[e])
    decreases |s| - j
  {
    if j == |s| || IsWhitespace(s[j]) then j else WordEnd(s, j + 1)
  }

  function Splitters(t: string): nat {
    if t == [] then 0 else (if IsSplitter(t[0]) then 1 else 0) + Splitters(t[1..])
  }

  /** The end of a decimal run starting at `j`: digits and at most one
      splitter (`.` or `,`) in all, counting one already `seen`. */
  function RealEnd(s: string, j: nat, seen: bool): (e: nat)
    requires j <= |s|
    ensures j <= e <= |s|
    ensures forall k :: j <= k < e ==> IsDigit(s[k]) || IsSplitter(s[k])
    ensures (if seen then 1 else 0) + Splitters(s[j..e]) <= 1
    ensures e == |s| || (!IsDigit(s[e]) && (IsSplitter(s[e]) ==> (if seen then 1 else 0) + Splitters(s[j..e]) == 1))
    decreases |s| - j
  {
    if j == |s| then j
    else if IsDigit(s[j]) || (IsSplitter(s[j]) && !seen) then
      var e := RealEnd(s, j + 1, seen || IsSplitter(s[j]));
      assert s[j..e][1..] == s[j + 1..e];
      e
    else j
  }

  // ---------------------------------------------------------------------
  // Numeric parses

  function Digit(c: char): nat
    requires IsDigit(c)
  {
    c as int - '0' as int
  }

  predicate AllDigits(t: string) {
    forall k :: 0 <= k < |t| ==> IsDigit(t[k])
  }

  /** The value of a digit string read in `radix`. */
  function Value(t: string, radix: nat): nat
    requires AllDigits(t)
  {
    if t == [] then 0 else Value(t[..|t| - 1], radix) * radix + Digit(t[|t| - 1])
  }

  /** Leading zeros do not change the value of a digit string, which is
      why the `0` that selects octal is read as part of the number. */
  lemma {:induction false} ValueLeadingZero(t: string, radix: nat)
    requires AllDigits(t)
    ensures AllDigits(['0'] + t) && Value(['0'] + t, radix) == Value(t, radix)
    decreases |t|
  {
    var z := ['0'] + t;
    if t != [] {
      assert z[..|z| - 1] == ['0'] + t[..|t| - 1];
      ValueLeadingZero(t[..|t| - 1], radix);
    }
  }

  predicate IsInteger(spec: Spec) {
    spec in {D, I, LD, HD, HI, HHD, HHI}
  }

  /** The width in bytes of the variable an integer conversion assigns:
      `Integer`, `Long`, `Short` or `Byte`. */
  function Bytes(spec: Spec): nat
    requires IsInteger(spec)
  {
    match spec
    case D => 4
    case I => 4
    case LD => 8
    case HD => 2
    case HI => 2
    case _ => 1
  }

  /** The number of values a variable `bytes` wide holds. */
  function Span(bytes: nat): nat {
    if bytes == 0 then 1 else 0x100 * Span(bytes - 1)
  }

  lemma Spans()
    ensures Span(1) == 0x100 && Span(2) == 0x1_0000
    ensures Span(4) == 0x1_0000_0000 && Span(8) == 0x1_0000_0000_0000_0000
  {
    assert Span(3) == 0x100_0000;
    assert Span(6) == 0x1_0000_0000_0000 by { assert Span(5) == 0x100_0000_0000; }
    assert Span(7) == 0x100_0000_0000_0000;
  }

  /** The largest value the variable of an integer conversion holds: the
      two's-complement maximum of its width, below which lie half its
      values. */
  function Max(spec: Spec): (r: nat)
    requires IsInteger(spec)
    ensures (r + 1) * 2 == Span(Bytes(spec))
  {
    Spans();
    match spec
    case D => 0x7fff_ffff
    case I => 0x7fff_ffff
    case LD => 0x7fff_ffff_ffff_ffff
    case HD => 0x7fff
    case HI => 0x7fff
    case _ => 0x7f
  }

  /** The radix handed to the parse: only `%i` and `%hi` look at a leading
      `0x` or `0`. */
  function Radix(spec: Spec, t: string): (r: nat)
    ensures r == 8 || r == 10 || r == 16
    ensures r != 10 ==> spec == I || spec == HI
  {
    if (spec == I || spec == HI) && |t| >= 1 && t[0] == '0' then
      (if |t| >= 2 && t[1] == 'x' then 16 else 8)
    else 10
  }

  /** `Integer.parseInt` and its narrower siblings on a run of digits: a
      digit the radix lacks or a value out of range is a
      `NumberFormatException`. */
  function ParseInt(t: string, radix: nat, max: nat): (r: Result<int>)
    requires AllDigits(t)
    ensures r.Ok? <==> (forall k :: 0 <= k < |t| ==> Digit(t[k]) < radix) && Value(t, radix) <= max
    ensures r.Ok? ==> 0 <= r.value <= max
    ensures r.Ok? || r == Err(NumberFormat)
  {
    if exists k :: 0 <= k < |t| && Digit(t[k]) >= radix then Err(NumberFormat)
    else if Value(t, radix) > max then Err(NumberFormat)
    else Ok(Value(t, radix))
  }

  /** Whether `Float.parseFloat`, `Double.parseDouble` and `new BigDecimal`
      accept a decimal run: they want a digit and reject the comma. */
  predicate Decimal(t: string) {
    ',' !in t && exists k :: 0 <= k < |t| && IsDigit(t[k])
  }

  // ---------------------------------------------------------------------
  // Scanning

  /** A value assigned to an output variable. The floating-point parse is
      not modelled: a decimal field keeps the text it was given. */
  datatype Field = Int(spec: Spec, value: int) | Real(spec: Spec, text: string) | Word(text: string)

  function FieldSpec(f: Field): Spec {
    match f
    case Int(spec, _) => spec
    case Real(spec, _) => spec
    case Word(_) => S
  }

  function Specs(fs: seq<Field>): (r: seq<Spec>)
    ensures |r| == |fs|
  {
    seq(|fs|, k requires 0 <= k < |fs| => FieldSpec(fs[k]))
  }

  /** The conversions that assign a variable, in order: all but `%o`. */
  function Assigned(es: seq<Elem>): seq<Spec> {
    if es == [] then []
    else if es[0].Conv? && es[0].spec != O then [es[0].spec] + Assigned(es[1..])
    else Assigned(es[1..])
  }

  /** What one element does at input index `at`: the input does not fit,
      or the scan moves on to `next`, possibly assigning a field. For a
      conversion, `run` is set and `next` is the index after its run. */
  datatype Step = Mismatch | Advance(field: Option<Field>, next: nat, run: bool)

  function Element(s: string, e: Elem, at: nat): (r: Result<Step>)
    ensures r.Err? ==> (at >= |s| && r.fault == StringIndexOutOfBounds)
                       || (r.fault == NumberFormat && e.Conv? && e.spec != S && e.spec != O)
    ensures r.Ok? && r.value.Advance? && r.value.run ==> at < r.value.next <= |s|
    ensures r.Ok? && r.value.Advance? && !r.value.run ==> r.value.field.None? && r.value.next >= at
    ensures r.Ok? && r.value.Advance? && r.value.field.Some? ==>
              e.Conv? && e.spec != O && FieldSpec(r.value.field.value) == e.spec
    ensures r.Ok? && r.value.Advance? && e.Conv? && e.spec != O ==> r.value.field.Some?
  {
    match e
    case Text(t) => Ok(Advance(None, at + |t|, false))
    case Percent => Ok(Advance(None, at + 1, false))
    case Conv(spec) =>
      if spec == O then Ok(Advance(None, at + 2, false))
      else if at >= |s| then Err(StringIndexOutOfBounds)
      else if spec == S then
        if IsWhitespace(s[at]) then Ok(Mismatch)
        else
          var end := WordEnd(s, at);
          Ok(Advance(Some(Word(s[at..end])), end, true))
      else if spec in {F, LF, BigLF} then
        if !IsDigit(s[at]) && !IsSplitter(s[at]) then Ok(Mismatch)
        else
          var end := RealEnd(s, at, false);
          if Decimal(s[at..end]) then Ok(Advance(Some(Real(spec, s[at..end])), end, true))
          else Err(NumberFormat)
      else
        if !IsDigit(s[at]) then Ok(Mismatch)
        else
          var end := DigitEnd(s, at);
          var t := s[at..end];
          var v :- ParseInt(t, Radix(spec, t), Max(spec));
          Ok(Advance(Some(Int(spec, v)), end, true))
  }

  /** The outcome of a scan: the count returned (-1 for a mismatch), the
      fields assigned, the input index reached and how many elements were
      left unprocessed. */
  datatype Scan = Scan(count: int, fields: seq<Field>, stop: nat, left: nat)

  /** The fields assigned so far, with the one an element assigned. */
  function Extend(acc: seq<Field>, f: Option<Field>): seq<Field> {
    if f.Some? then acc + [f.value] else acc
  }

  /** The scanning loop with the intended stop: the scan ends once the
      input is used up, so a conversion is skipped only when no input is
      left for it. */
  function ScanFrom(s: string, es: seq<Elem>, at: nat, acc: seq<Field>): (r: Result<Scan>)
    ensures r.Ok? ==> r.value.count == -1 || r.value.count == |r.value.fields|
    ensures r.Ok? ==> r.value.left <= |es|
    ensures r.Ok? && r.value.count >= 0 && r.value.left > 0 ==> r.value.stop >= |s|
    decreases |es|
  {
    if es == [] then Ok(Scan(|acc|, acc, at, 0))
    else
      var step :- Element(s, es[0], at);
      match step
      case Mismatch => Ok(Scan(-1, acc, at, |es|))
      case Advance(f, next, _) =>
        if next >= |s| then Ok(Scan(|Extend(acc, f)|, Extend(acc, f), next, |es| - 1))
        else ScanFrom(s, es[1..], next, Extend(acc, f))
  }

  /** Where the index rests after an element: a run that reaches the end
      of the input leaves it on the last character. */
  function Rest(s: string, next: nat, run: bool): nat {
    if run && next == |s| && next > 0 then |s| - 1 else next
  }

  /** The scanning loop as written: the scan ends once the index reaches
      the last character of the input. */
  function ScanAsWritten(s: string, es: seq<Elem>, at: nat, acc: seq<Field>): (r: Result<Scan>)
    ensures r.Ok? ==> r.value.count == -1 || r.value.count == |r.value.fields|
    ensures r.Ok? ==> r.value.left <= |es|
    ensures r.Ok? && r.value.count >= 0 && r.value.left > 0 ==> r.value.stop >= |s| - 1
    decreases |es|
  {
    if es == [] then Ok(Scan(|acc|, acc, at, 0))
    else
      var step :- Element(s, es[0], at);
      match step
      case Mismatch => Ok(Scan(-1, acc, at, |es|))
      case Advance(f, next, run) =>
        var index := Rest(s, next, run);
        if index >= |s| - 1 then Ok(Scan(|Extend(acc, f)|, Extend(acc, f), index, |es| - 1))
        else ScanAsWritten(s, es[1..], index, Extend(acc, f))
  }

  /** The fields a scan assigns follow the assigning conversions of the
      pattern in order: it assigns a prefix of them. */
  lemma {:induction false} ScanFromFields(s: string, es: seq<Elem>, at: nat, acc: seq<Field>)
    ensures ScanFrom(s, es, at, acc).Ok? ==>
              Specs(acc) <= Specs(ScanFrom(s, es, at, acc).value.fields) <= Specs(acc) + Assigned(es)
    decreases |es|
  {
    if es != [] {
      var step := Element(s, es[0], at);
      if step.Ok? && step.value.Advance? {
        var f, next := step.value.field, step.value.next;
        ExtendSpecs(acc, es, f);
        if next < |s| {
          ScanFromFields(s, es[1..], next, Extend(acc, f));
        }
      }
    }
  }

  lemma {:induction false} ScanAsWrittenFields(s: string, es: seq<Elem>, at: nat, acc: seq<Field>)
    ensures ScanAsWritten(s, es, at, acc).Ok? ==>
              Specs(acc) <= Specs(ScanAsWritten(s, es, at, acc).value.fields) <= Specs(acc) + Assigned(es)
    decreases |es|
  {
    if es != [] {
      var step := Element(s, es[0], at);
      if step.Ok? && step.value.Advance? {
        var f, index := step.value.field, Rest(s, step.value.next, step.value.run);
        ExtendSpecs(acc, es, f);
        if index < |s| - 1 {
          ScanAsWrittenFields(s, es[1..], index, Extend(acc, f));
        }
      }
    }
  }

  /** Adding the field of the first element keeps the assigned specs a
      prefix of those the pattern allows. */
  lemma ExtendSpecs(acc: seq<Field>, es: seq<Elem>, f: Option<Field>)
    requires es != []
    requires f.Some? ==> es[0].Conv? && es[0].spec != O && FieldSpec(f.value) == es[0].spec
    requires f.None? ==> !(es[0].Conv? && es[0].spec != O)
    ensures Specs(acc) <= Specs(Extend(acc, f))
    ensures Specs(Extend(acc, f)) + Assigned(es[1..]) == Specs(acc) + Assigned(es)
  {
    if f.Some? {
      var x := FieldSpec(f.value);
      SpecsConcat(acc, [f.value]);
      assert Specs([f.value]) == [x];
      assert Specs(Extend(acc, f)) == Specs(acc) + [x];
      assert Assigned(es) == [x] + Assigned(es[1..]);
      assert (Specs(acc) + [x])[..|Specs(acc)|] == Specs(acc);
    } else {
      assert Extend(acc, f) == acc;
      assert Assigned(es) == Assigned(es[1..]);
    }
  }


  lemma SpecsConcat(a: seq<Field>, b: seq<Field>)
    ensures Specs(a + b) == Specs(a) + Specs(b)
  {
    assert forall k :: 0 <= k < |a| + |b| ==> Specs(a + b)[k] == (Specs(a) + Specs(b))[k];
  }

  /** `sscanf(str, pattern, vars)` with `nvars` variables: too few variables
      give -1 before any input is read. */
  function Sscanf(str: string, pattern: string, nvars: nat): (r: Result<Scan>)
    ensures r.Ok? ==> r.value.count == -1 || r.value.count == |r.value.fields|
    ensures r.Ok? ==> |r.value.fields| <= nvars
  {
    var es :- Tokenize(pattern, "");
    if Conversions(es) > nvars then Ok(Scan(-1, [], 0, |es|))
    else
      AssignedAtMostConversions(es);
      ScanFromFields(str, es, 0, []);
      ScanFrom(str, es, 0, [])
  }

  function SscanfAsWritten(str: string, pattern: string, nvars: nat): (r: Result<Scan>)
    ensures r.Ok? ==> r.value.count == -1 || r.value.count == |r.value.fields|
    ensures r.Ok? ==> |r.value.fields| <= nvars
  {
    var es :- Tokenize(pattern, "");
    if Conversions(es) > nvars then Ok(Scan(-1, [], 0, |es|))
    else
      AssignedAtMostConversions(es);
      ScanAsWrittenFields(str, es, 0, []);
      ScanAsWritten(str, es, 0, [])
  }

  lemma {:induction false} AssignedAtMostConversions(es: seq<Elem>)
    ensures |Assigned(es)| <= Conversions(es)
  {
    if es != [] {
      AssignedAtMostConversions(es[1..]);
    }
  }

  // ---------------------------------------------------------------------
  // What one conversion reads

  /** The first character a conversion needs: a digit for the integer
      conversions, a digit or splitter for the decimal ones, anything but
      whitespace for `%s`. */
  predicate Starts(spec: Spec, c: char) {
    if spec == S then !IsWhitespace(c)
    else if spec in {F, LF, BigLF} then IsDigit(c) || IsSplitter(c)
    else IsDigit(c)
  }

  /** A conversion that assigns fails to match exactly when the character
      under the index cannot start its field. */
  lemma MismatchWhen(s: string, spec: Spec, at: nat)
    requires spec != O && at < |s|
    ensures Element(s, Conv(spec), at) == Ok(Mismatch) <==> !Starts(spec, s[at])
  {
  }

  /** Literal text, `%%` and `%o` move the index on by their length
      without looking at the input. */
  lemma SkipsWithoutReading(s: string, e: Elem, at: nat)
    requires e.Text? || e.Percent? || e == Conv(O)
    ensures Element(s, e, at) == Ok(Advance(None, at + |Spelled(e)|, false))
  {
  }

  /** An integer conversion reads the maximal run of digits at the index
      and parses it in the radix the run selects; a digit the radix lacks
      or a value the variable cannot hold is a `NumberFormatException`. */
  lemma IntegerField(s: string, spec: Spec, at: nat, e: nat)
    requires IsInteger(spec) && at < e <= |s|
    requires forall k :: at <= k < e ==> IsDigit(s[k])
    requires e == |s| || !IsDigit(s[e])
    ensures var t := s[at..e]; var radix := Radix(spec, t);
            Element(s, Conv(spec), at) ==
              if (forall k :: 0 <= k < |t| ==> Digit(t[k]) < radix) && Value(t, radix) <= Max(spec)
              then Ok(Advance(Some(Int(spec, Value(t, radix))), e, true))
              else Err(NumberFormat)
  {
    assert DigitEnd(s, at) == e;
  }

  /** `%s` reads the maximal run of non-whitespace characters. */
  lemma WordField(s: string, at: nat, e: nat)
    requires at < e <= |s|
    requires forall k :: at <= k < e ==> !IsWhitespace(s[k])
    requires e == |s| || IsWhitespace(s[e])
    ensures Element(s, Conv(S), at) == Ok(Advance(Some(Word(s[at..e])), e, true))
  {
    assert WordEnd(s, at) == e;
  }

  /** A decimal conversion reads the maximal run of digits holding at most
      one splitter; the parse rejects a comma and a run without digits. */
  lemma RealField(s: string, spec: Spec, at: nat, e: nat)
    requires spec in {F, LF, BigLF} && at < e <= |s|
    requires forall k :: at <= k < e ==> IsDigit(s[k]) || IsSplitter(s[k])
    requires Splitters(s[at..e]) <= 1
    requires e == |s| || (!IsDigit(s[e]) && (IsSplitter(s[e]) ==> Splitters(s[at..e]) == 1))
    ensures Element(s, Conv(spec), at) ==
              if Decimal(s[at..e]) then Ok(Advance(Some(Real(spec, s[at..e])), e, true))
              else Err(NumberFormat)
  {
    RealEndUnique(s, at, e);
  }

  /** The characterisation of a decimal run has one solution. */
  lemma RealEndUnique(s: string, at: nat, e: nat)
    requires at <= e <= |s|
    requires forall k :: at <= k < e ==> IsDigit(s[k]) || IsSplitter(s[k])
    requires Splitters(s[at..e]) <= 1
    requires e == |s| || (!IsDigit(s[e]) && (IsSplitter(s[e]) ==> Splitters(s[at..e]) == 1))
    ensures RealEnd(s, at, false) == e
  {
    var f := RealEnd(s, at, false);
    if f < e {
      assert s[at..e][..f - at] == s[at..f];
      assert s[at..e][f - at..][0] == s[f];
      SplittersSplit(s[at..e], f - at);
    } else if e < f {
      assert s[at..f][..e - at] == s[at..e];
      assert s[at..f][e - at..][0] == s[e];
      SplittersSplit(s[at..f], e - at);
    }
  }

  lemma {:induction false} SplittersSplit(t: string, k: nat)
    requires k <= |t|
    ensures Splitters(t) == Splitters(t[..k]) + Splitters(t[k..])
    ensures k < |t| && IsSplitter(t[k]) ==> Splitters(t[k..]) >= 1
  {
    if k > 0 {
      SplittersSplit(t[1..], k - 1);
      assert t[1..][..k - 1] == t[..k][1..];
      assert t[1..][k - 1..] == t[k..];
    }
  }

  /** The radix is 8 exactly for `%i` and `%hi` on a run with a leading
      zero; a run of digits never starts with `0x`, so 16 never occurs. */
  lemma RadixOfDigits(spec: Spec, t: string)
    requires AllDigits(t)
    ensures Radix(spec, t) == 8 || Radix(spec, t) == 10
    ensures Radix(spec, t) == 8 <==> (spec == I || spec == HI) && |t| >= 1 && t[0] == '0'
  {
  }

  /** The value of three digits. */
  lemma Value3(t: string, radix: nat)
    requires |t| == 3 && AllDigits(t)
    ensures Value(t, radix) == (Digit(t[0]) * radix + Digit(t[1])) * radix + Digit(t[2])
  {
    var t2 := t[..2];
    var t1 := t2[..1];
    assert t2[..|t2| - 1] == t1 && t2[|t2| - 1] == t[1];
    assert t1[..|t1| - 1] == [] && t1[|t1| - 1] == t[0];
    assert Value(t1, radix) == Digit(t[0]);
    assert Value(t2, radix) == Digit(t[0]) * radix + Digit(t[1]);
  }

  /** A leading zero makes `%i` read "010" as octal. */
  lemma OctalExample()
    ensures Element("010", Conv(I), 0) == Ok(Advance(Some(Int(I, 8)), 3, true))
  {
    var s := "010";
    assert s[0..3] == s;
    Value3(s, 8);
    IntegerField(s, I, 0, 3);
  }

  /** `%hhi` reads "010" as decimal: its radix test looks for `%hi`. */
  lemma ByteOctalExample()
    ensures Element("010", Conv(HHI), 0) == Ok(Advance(Some(Int(HHI, 10)), 3, true))
  {
    var s := "010";
    assert s[0..3] == s;
    Value3(s, 10);
    IntegerField(s, HHI, 0, 3);
  }

  /** An octal run holding an 8 does not parse. */
  lemma OctalRejectsEight()
    ensures Element("08", Conv(I), 0) == Err(NumberFormat)
  {
    var s := "08";
    assert s[0..2] == s;
    assert Digit(s[1]) == 8;
    IntegerField(s, I, 0, 2);
  }

  /** A byte conversion holds 127 ... */
  lemma ByteHolds127()
    ensures Element("127", Conv(HHD), 0) == Ok(Advance(Some(Int(HHD, 127)), 3, true))
  {
    var s := "127";
    assert s[0..3] == s;
    Value3(s, 10);
    IntegerField(s, HHD, 0, 3);
  }

  /** ... but not 128. */
  lemma ByteRejects128()
    ensures Element("128", Conv(HHD), 0) == Err(NumberFormat)
  {
    var s := "128";
    assert s[0..3] == s;
    Value3(s, 10);
    IntegerField(s, HHD, 0, 3);
  }

  /** A decimal run stops at its second splitter. */
  lemma DecimalStopsAtSecondPoint()
    ensures Element("1.5.2", Conv(F), 0) == Ok(Advance(Some(Real(F, "1.5")), 3, true))
  {
    assert "1.5.2"[0..3] == "1.5";
    assert Splitters("1.5") == 1 by {
      assert "1.5"[1..] == ".5" && ".5"[1..] == "5" && "5"[1..] == "";
    }
    RealField("1.5.2", F, 0, 3);
    assert Decimal("1.5") by {
      assert IsDigit("1.5"[0]);
    }
  }

  /** A comma splits a decimal run but the parse then rejects it. */
  lemma DecimalRejectsComma()
    ensures Element("1,5", Conv(LF), 0) == Err(NumberFormat)
  {
    assert "1,5"[0..3] == "1,5";
    assert Splitters("1,5") == 1 by {
      assert "1,5"[1..] == ",5" && ",5"[1..] == "5" && "5"[1..] == "";
    }
    RealField("1,5", LF, 0, 3);
    assert "1,5"[1] == ',';
  }

  /** A run without a digit does not parse. */
  lemma DecimalNeedsDigit()
    ensures Element(".x", Conv(BigLF), 0) == Err(NumberFormat)
  {
    assert ".x"[0..1] == ".";
    assert Splitters(".") == 1 by {
      assert "."[1..] == "";
    }
    RealField(".x", BigLF, 0, 1);
  }

  // ---------------------------------------------------------------------
  // Whole calls

  /** More conversions than variables give -1 before the input is looked
      at; `%%` is not a conversion, `%o` is. */
  lemma TooFewVariables(str: string, pattern: string, nvars: nat)
    requires Tokenize(pattern, "").Ok?
    requires Conversions(Tokenize(pattern, "").value) > nvars
    ensures Sscanf(str, pattern, nvars).Ok? && Sscanf(str, pattern, nvars).value.count == -1
    ensures Sscanf(str, pattern, nvars).value.fields == []
  {
  }

  lemma PercentIsNoConversion()
    ensures Conversions([Percent, Conv(O)]) == 1
  {
    assert [Percent, Conv(O)][1..] == [Conv(O)];
  }

  /** The pattern `%d %d`. */
  lemma TwoIntegers()
    ensures Tokenize("%d %d", "") == Ok([Conv(D), Text(" "), Conv(D)])
  {
    var es := [Conv(D), Text(" "), Conv(D)];
    assert Render(es) == "%d %d" by {
      assert es[1..] == [Text(" "), Conv(D)] && es[2..] == [Conv(D)] && es[3..] == [];
    }
    TokenizeRender(es, "");
    assert Flush("") + es == es;
  }

  /** A one-digit field. */
  lemma OneDigit(s: string, at: nat)
    requires at < |s| && IsDigit(s[at]) && (at + 1 == |s| || !IsDigit(s[at + 1]))
    ensures Element(s, Conv(D), at) == Ok(Advance(Some(Int(D, Digit(s[at]))), at + 1, true))
  {
    IntegerField(s, D, at, at + 1);
    assert s[at..at + 1] == [s[at]];
    assert [s[at]][..0] == [];
  }

  /** As written, "1 2" against "%d %d" returns 1: after the space the
      index rests on the last character, which ends the scan before the
      second conversion reads the 2. */
  lemma LastFieldDroppedAsWritten()
    ensures SscanfAsWritten("1 2", "%d %d", 2) == Ok(Scan(1, [Int(D, 1)], 2, 1))
  {
    TwoIntegers();
    var es := [Conv(D), Text(" "), Conv(D)];
    assert Conversions(es) == 2 by {
      assert es[1..][1..] == [Conv(D)] && es[1..][1..][1..] == [];
    }
    OneDigit("1 2", 0);
    assert Digit('1') == 1;
    assert es[1..] == [Text(" "), Conv(D)];
    assert Element("1 2", Text(" "), 1) == Ok(Advance(None, 2, false));
    assert Extend([], Some(Int(D, 1))) == [Int(D, 1)];
    assert ScanAsWritten("1 2", es[1..], 1, [Int(D, 1)]) == Ok(Scan(1, [Int(D, 1)], 2, 1));
    assert ScanAsWritten("1 2", es, 0, []) == Ok(Scan(1, [Int(D, 1)], 2, 1));
  }

  /** With the intended stop the same call reads both numbers. */
  lemma LastFieldReadCorrected()
    ensures Sscanf("1 2", "%d %d", 2) == Ok(Scan(2, [Int(D, 1), Int(D, 2)], 3, 0))
  {
    TwoIntegers();
    var es := [Conv(D), Text(" "), Conv(D)];
    assert Conversions(es) == 2 by {
      assert es[1..][1..] == [Conv(D)] && es[1..][1..][1..] == [];
    }
    OneDigit("1 2", 0);
    assert Digit('1') == 1;
    assert es[1..] == [Text(" "), Conv(D)];
    assert Extend([], Some(Int(D, 1))) == [Int(D, 1)];
    SecondFieldRead();
    assert ScanFrom("1 2", es, 0, []) == Ok(Scan(2, [Int(D, 1), Int(D, 2)], 3, 0));
  }

  /** The step of `LastFieldReadCorrected` after the first field. */
  lemma SecondFieldRead()
    ensures ScanFrom("1 2", [Text(" "), Conv(D)], 1, [Int(D, 1)]) == Ok(Scan(2, [Int(D, 1), Int(D, 2)], 3, 0))
  {
    var es := [Text(" "), Conv(D)];
    OneDigit("1 2", 2);
    assert Digit('2') == 2;
    assert es[1..] == [Conv(D)];
    assert Element("1 2", Text(" "), 1) == Ok(Advance(None, 2, false));
    assert Extend([Int(D, 1)], Some(Int(D, 2))) == [Int(D, 1), Int(D, 2)];
    assert ScanFrom("1 2", es[1..], 2, [Int(D, 1)]) == Ok(Scan(2, [Int(D, 1), Int(D, 2)], 3, 0));
  }

  /** An empty input makes the first conversion read past its end. */
  lemma EmptyInput()
    ensures Sscanf("", "%d", 1) == Err(StringIndexOutOfBounds)
  {
    TokenizeRender([Conv(D)], "");
    assert Render([Conv(D)]) == "%d";
    assert Conversions([Conv(D)]) == 1;
  }
}
