/** Guard generation: the name of the guard for an interface, and the
    doc comment and function stub emitted for it. */
module GuardGen {
  import opened Interfaces

  /** `toUpperCase` on one character, for ASCII letters; every other
      character is left as it is. */
  function ToUpper(c: char): (u: char)
    ensures 'a' <= c <= 'z' ==> 'A' <= u <= 'Z' && u as int == c as int - 32
    ensures !('a' <= c <= 'z') ==> u == c
  {
    if 'a' <= c <= 'z' then (c as int - 32) as char else c
  }

  /** The guard for interface `name`: `is`, then the first letter
      upper-cased, then the rest of the name unchanged, so two characters
      longer than the name. */
  function GuardName(name: string): (g: string)
    requires |name| > 0
    ensures |g| == |name| + 2
    ensures g[..2] == "is" && g[2] == ToUpper(name[0]) && g[3..] == name[1..]
  {
    "is" + [ToUpper(name[0])] + name[1..]
  }

  /** A name that already starts with something other than a lower-case
      letter is kept verbatim: `Foo` gives `isFoo`. */
  lemma GuardNameOfCapitalised(name: string)
    requires |name| > 0 && !('a' <= name[0] <= 'z')
    ensures GuardName(name) == "is" + name
  {
  }

  /** Two interfaces get the same guard name exactly when their names
      differ at most in the case of the first letter (`foo` and `Foo`
      collide; nothing deduplicates them). */
  lemma GuardNameCollision(x: string, y: string)
    requires |x| > 0 && |y| > 0
    ensures GuardName(x) == GuardName(y) <==>
      ToUpper(x[0]) == ToUpper(y[0]) && x[1..] == y[1..]
  {
    if GuardName(x) == GuardName(y) {
      assert GuardName(x)[2] == ToUpper(x[0]);
      assert GuardName(y)[2] == ToUpper(y[0]);
      assert GuardName(x)[3..] == x[1..];
      assert GuardName(y)[3..] == y[1..];
    }
  }

  /** `text` holds `part` somewhere. */
  ghost predicate Contains(text: string, part: string)
  {
    exists before, after :: text == before + part + after
  }

  lemma ContainsAt(text: string, before: string, part: string, after: string)
    requires text == before + part + after
    ensures Contains(text, part)
  {
  }

  lemma ContainsWithin(text: string, before: string, middle: string, after: string, part: string)
    requires text == before + middle + after && Contains(middle, part)
    ensures Contains(text, part)
  {
    var b, a :| middle == b + part + a;
    assert text == (before + b) + part + (a + after);
  }

  /** Cutting `a + b` at `|a|` gives back `a` and `b`. */
  lemma SplitConcat(a: string, b: string)
    ensures (a + b)[..|a|] == a && (a + b)[|a|..] == b
  {
  }

  /** A prefix of `a` is also a prefix of `a + b`. */
  lemma PrefixOfConcat(a: string, b: string, n: nat)
    requires n <= |a|
    ensures n <= |a + b| && (a + b)[..n] == a[..n]
  {
  }

  /** What follows the first mention of the interface in its doc comment. */
  function DocCommentRest(name: string): string
  {
    " interface.\n" +
    " * @param value To check.\n" +
    " * @returns True if value is " + name + ", false otherwise.\n" +
    " */\n"
  }

  /** The opening of the doc comment, up to the interface name. */
  function DocCommentOpening(): (s: string)
    ensures |s| >= 3 && s[..3] == "/**"
  {
    "/**\n * Ensures that value is a "
  }

  /** The doc comment emitted above each guard: it opens a doc comment and
      names the interface. */
  function DocComment(name: string): (c: string)
    ensures |c| >= 3 && c[..3] == "/**"
    ensures Contains(c, name)
  {
    var c := DocCommentOpening() + name + DocCommentRest(name);
    ContainsAt(c, DocCommentOpening(), name, DocCommentRest(name));
    assert c == DocCommentOpening() + (name + DocCommentRest(name));
    c
  }

  /** The parameter list of every guard. */
  function ParamList(): string
  {
    "(value: unknown)"
  }

  /** The start of the signature line, up to the end of the parameter list. */
  function SignatureHead(def: InterfaceDef): string
    requires |def.name| > 0
  {
    "function " + GuardName(def.name) + ParamList()
  }

  /** The return type `value is <name>` and the opening brace, as they
      follow the parameter list (after a space). */
  function ReturnTail(name: string): string
  {
    " value is " + name + " {"
  }

  /** `line` declares the function `guard` with one parameter `value: unknown`
      and, after a `:`, the return type `value is <name>`. */
  predicate DeclaresTypePredicate(line: string, guard: string, name: string)
  {
    line == "function " + guard + "(value: unknown): value is " + name + " {"
  }

  /** The signature line as the template writes it: it names the guard,
      but the `:` that introduces the return type is missing. */
  function SignatureAsWritten(def: InterfaceDef): (line: string)
    requires |def.name| > 0
    ensures Contains(line, GuardName(def.name))
  {
    var line := SignatureHead(def) + ReturnTail(def.name);
    ContainsAt(line, "function ", GuardName(def.name), ParamList() + ReturnTail(def.name));
    line
  }

  /** Whatever the interface, the signature as written is not a type
      predicate declaration: right after the parameter list there is a
      space where the `:` belongs. */
  lemma SignatureAsWrittenMissesColon(def: InterfaceDef)
    requires |def.name| > 0
    ensures |SignatureAsWritten(def)| > |SignatureHead(def)|
    ensures SignatureAsWritten(def)[|SignatureHead(def)|] == ' '
    ensures !DeclaresTypePredicate(SignatureAsWritten(def), GuardName(def.name), def.name)
  {
    var g := GuardName(def.name);
    var h := SignatureHead(def);
    var w := SignatureAsWritten(def);
    assert w[|h|] == ReturnTail(def.name)[0] == ' ';
    var typed := "function " + g + "(value: unknown): value is " + def.name + " {";
    var tail := "(value: unknown): value is " + def.name + " {";
    assert typed == "function " + g + tail;
    assert |h| == |"function " + g| + 16;
    assert typed[|h|] == tail[16] == ':';
  }

  /** The signature line with the `:` in place: the line as written with
      exactly one `:` inserted right after the parameter list. */
  function Signature(def: InterfaceDef): (line: string)
    requires |def.name| > 0
    ensures |SignatureHead(def)| <= |SignatureAsWritten(def)|
    ensures line == SignatureAsWritten(def)[..|SignatureHead(def)|] + ":" +
                    SignatureAsWritten(def)[|SignatureHead(def)|..]
  {
    SplitConcat(SignatureHead(def), ReturnTail(def.name));
    SignatureHead(def) + ":" + ReturnTail(def.name)
  }

  /** The corrected line does declare the guard's type predicate. */
  lemma SignatureDeclaresTypePredicate(def: InterfaceDef)
    requires |def.name| > 0
    ensures DeclaresTypePredicate(Signature(def), GuardName(def.name), def.name)
  {
    var g := GuardName(def.name);
    assert ParamList() + ":" + ReturnTail(def.name) == "(value: unknown): value is " + def.name + " {";
    assert Signature(def) == "function " + g + (ParamList() + ":" + ReturnTail(def.name));
  }

  /** The text that follows the signature line. */
  function StubBody(): string
  {
    "\n  // TODO: Write type guards here\n}\n"
  }

  /** The code the template emits for one interface: the doc comment, the
      signature as written and a body still to be written. It opens a doc
      comment and names both the interface and its guard. */
  function GuardSourceAsWritten(def: InterfaceDef): (text: string)
    requires |def.name| > 0
    ensures |text| >= 3 && text[..3] == "/**"
    ensures Contains(text, def.name)
    ensures Contains(text, GuardName(def.name))
  {
    var d := DocComment(def.name);
    var text := d + SignatureAsWritten(def) + StubBody();
    assert text == d + (SignatureAsWritten(def) + StubBody());
    ContainsWithin(text, [], d, SignatureAsWritten(def) + StubBody(), def.name);
    ContainsWithin(text, d, SignatureAsWritten(def), StubBody(), GuardName(def.name));
    text
  }

  /** The code generated for one interface with the signature corrected:
      the emitted text with exactly one `:` inserted after the parameter
      list, so that it holds the type-predicate signature. */
  function GuardSource(def: InterfaceDef): (text: string)
    requires |def.name| > 0
    ensures |DocComment(def.name)| + |SignatureHead(def)| <= |GuardSourceAsWritten(def)|
    ensures text == GuardSourceAsWritten(def)[..|DocComment(def.name)| + |SignatureHead(def)|] + ":" +
                    GuardSourceAsWritten(def)[|DocComment(def.name)| + |SignatureHead(def)|..]
    ensures Contains(text, Signature(def))
  {
    var d := DocComment(def.name);
    var h := SignatureHead(def);
    var t := ReturnTail(def.name);
    var text := d + Signature(def) + StubBody();
    assert GuardSourceAsWritten(def) == (d + h) + (t + StubBody());
    assert text == (d + h) + ":" + (t + StubBody());
    SplitConcat(d + h, t + StubBody());
    ContainsAt(text, d, Signature(def), StubBody());
    text
  }

  /** The corrected code, like the emitted one, opens a doc comment and
      names the interface. */
  lemma GuardSourceDocumentsInterface(def: InterfaceDef)
    requires |def.name| > 0
    ensures |GuardSource(def)| >= 3 && GuardSource(def)[..3] == "/**"
    ensures Contains(GuardSource(def), def.name)
  {
    var d := DocComment(def.name);
    var s := GuardSource(def);
    var after := Signature(def) + StubBody();
    assert s == d + after;
    assert |s| >= 3 && s[..3] == "/**" by {
      PrefixOfConcat(d, after, 3);
    }
    assert Contains(s, def.name) by {
      assert s == [] + d + after;
      ContainsWithin(s, [], d, after, def.name);
    }
  }

  /** The corrected code holds the guard's type-predicate signature, and so
      names the guard. */
  lemma GuardSourceDeclaresGuard(def: InterfaceDef)
    requires |def.name| > 0
    ensures Contains(GuardSource(def), GuardName(def.name))
  {
    var d := DocComment(def.name);
    var g := GuardName(def.name);
    var rest := ParamList() + ":" + ReturnTail(def.name);
    assert Signature(def) == "function " + g + rest;
    ContainsAt(Signature(def), "function ", g, rest);
    assert GuardSource(def) == d + Signature(def) + StubBody();
    ContainsWithin(GuardSource(def), d, Signature(def), StubBody(), g);
  }
}
