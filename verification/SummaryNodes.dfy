// The nodes of dataflow summaries, printed and parsed.
module SummaryNodes {
  import opened Options
  import opened Decimal

  const RECEIVER_TAG := "!receiver"
  const ARG_PREFIX := "!arg "
  const ARG_NAME_LEFT := "<"
  const ARG_NAME_RIGHT := ">"
  const RETURN_PREFIX := "!ret"

  datatype SummaryNode =
    | Receiver(objectPath: string)
    | Argument(name: string, index: int, objectPath: string)
    | Return(index: int, objectPath: string)
  {
    function WithObjectPath(path: string): SummaryNode {
      this.(objectPath := path)
    }
  }

  datatype ParseError = CannotParse(s: string) | BadName(s: string, name: string) | NotAnInteger(s: string, numeral: string)
  datatype Result = Ok(node: SummaryNode) | Err(error: ParseError)

  // ------------------------------------------------------------ strings

  predicate HasPrefix(s: string, p: string) {
    p <= s
  }

  predicate HasSuffix(s: string, p: string) {
    |p| <= |s| && s[|s| - |p|..] == p
  }

  function TrimPrefix(s: string, p: string): string {
    if HasPrefix(s, p) then s[|p|..] else s
  }

  function TrimSuffix(s: string, p: string): string {
    if HasSuffix(s, p) then s[..|s| - |p|] else s
  }

  // What is before and after the first occurrence of a character.
  function Cut(s: string, c: char): (r: Option<(string, string)>)
    ensures r.None? <==> c !in s
    ensures r.Some? ==> c !in r.value.0 && s == r.value.0 + [c] + r.value.1
  {
    if s == "" then None
    else if s[0] == c then Some(("", s[1..]))
    else
      var r := Cut(s[1..], c);
      if r.None? then None else Some(([s[0]] + r.value.0, r.value.1))
  }

  predicate IsLetter(c: char) {
    'a' <= c <= 'z' || 'A' <= c <= 'Z' || c == '_'
  }

  predicate ValidName(s: string) {
    s != "" && IsLetter(s[0]) && forall i :: 0 <= i < |s| ==> IsLetter(s[i]) || IsDigit(s[i])
  }

  // ------------------------------------------------------------ printing and parsing

  function Base(n: SummaryNode): string {
    match n
    case Receiver(_) => RECEIVER_TAG
    case Argument(name, index, _) =>
      ARG_PREFIX + if name != "" then ARG_NAME_LEFT + name + ARG_NAME_RIGHT else Itoa(index)
    case Return(index, _) => RETURN_PREFIX + " " + Itoa(index)
  }

  function Print(n: SummaryNode): string {
    if n.objectPath == "" then Base(n) else "(" + Base(n) + ")" + n.objectPath
  }

  function ParseArgument(summary: string): Result
    requires HasPrefix(summary, ARG_PREFIX)
  {
    var s := TrimPrefix(summary, ARG_PREFIX);
    if HasPrefix(s, ARG_NAME_LEFT) && HasSuffix(s, ARG_NAME_RIGHT) then
      var name := TrimSuffix(TrimPrefix(s, ARG_NAME_LEFT), ARG_NAME_RIGHT);
      if ValidName(name) then Ok(Argument(name, 0, "")) else Err(BadName(summary, name))
    else
      var i := Atoi(s);
      if i.Some? then Ok(Argument("", i.value, "")) else Err(NotAnInteger(summary, s))
  }

  function ParseReturn(summary: string): Result
    requires HasPrefix(summary, RETURN_PREFIX)
  {
    if summary == RETURN_PREFIX then Ok(Return(0, ""))
    else
      var s := TrimPrefix(summary, RETURN_PREFIX + " ");
      var i := Atoi(s);
      if i.Some? then Ok(Return(i.value, "")) else Err(NotAnInteger(summary, s))
  }

  // A node without object path.
  function ParseBase(summary: string): Result {
    if HasPrefix(summary, ARG_PREFIX) then ParseArgument(summary)
    else if HasPrefix(summary, RETURN_PREFIX) then ParseReturn(summary)
    else if summary == RECEIVER_TAG then Ok(Receiver(""))
    else Err(CannotParse(summary))
  }

  function Parse(summary: string): Result
    decreases |summary|
  {
    if HasPrefix(summary, "(") then
      var cut := Cut(summary[1..], ')');
      if cut.None? then Err(CannotParse(summary))
      else
        var base := Parse(cut.value.0);
        if base.Err? then base else Ok(base.node.WithObjectPath(cut.value.1))
    else ParseBase(summary)
  }

  // ------------------------------------------------------------ round trips

  // The nodes that their printed form stands for: an argument has a valid name
  // and index 0, or no name; indices are machine integers.
  predicate Canonical(n: SummaryNode) {
    match n
    case Receiver(_) => true
    case Argument(name, index, _) => if name == "" then InRange(index) else ValidName(name) && index == 0
    case Return(index, _) => InRange(index)
  }

  // Whatever is parsed is canonical.
  lemma {:induction false} ParsedIsCanonical(s: string)
    ensures Parse(s).Ok? ==> Canonical(Parse(s).node)
    decreases |s|
  {
    if HasPrefix(s, "(") {
      var cut := Cut(s[1..], ')');
      if cut.Some? {
        ParsedIsCanonical(cut.value.0);
      }
    }
  }

  lemma {:induction false} CutBefore(a: string, b: string, c: char)
    requires c !in a
    ensures Cut(a + [c] + b, c) == Some((a, b))
  {
    var s := a + [c] + b;
    if a == "" {
      assert s[1..] == b;
    } else {
      assert s[1..] == a[1..] + [c] + b;
      CutBefore(a[1..], b, c);
      assert [a[0]] + a[1..] == a;
    }
  }

  lemma TrimPrefixed(p: string, s: string)
    ensures HasPrefix(p + s, p) && TrimPrefix(p + s, p) == s
  {
  }

  lemma TrimSuffixed(s: string, p: string)
    ensures HasSuffix(s + p, p) && TrimSuffix(s + p, p) == s
  {
  }

  lemma NameParses(name: string)
    requires ValidName(name)
    ensures ParseArgument(ARG_PREFIX + (ARG_NAME_LEFT + name + ARG_NAME_RIGHT)) == Ok(Argument(name, 0, ""))
  {
    var t := ARG_NAME_LEFT + (name + ARG_NAME_RIGHT);
    assert t == ARG_NAME_LEFT + name + ARG_NAME_RIGHT;
    TrimPrefixed(ARG_PREFIX, t);
    TrimPrefixed(ARG_NAME_LEFT, name + ARG_NAME_RIGHT);
    TrimSuffixed(ARG_NAME_LEFT + name, ARG_NAME_RIGHT);
    TrimSuffixed(name, ARG_NAME_RIGHT);
  }

  lemma IndexParses(index: int)
    requires InRange(index)
    ensures ParseArgument(ARG_PREFIX + Itoa(index)) == Ok(Argument("", index, ""))
    ensures HasPrefix(RETURN_PREFIX + " " + Itoa(index), RETURN_PREFIX)
    ensures ParseReturn(RETURN_PREFIX + " " + Itoa(index)) == Ok(Return(index, ""))
  {
    TrimPrefixed(ARG_PREFIX, Itoa(index));
    TrimPrefixed(RETURN_PREFIX + " ", Itoa(index));
    var r := RETURN_PREFIX + " " + Itoa(index);
    assert r[..4] == RETURN_PREFIX;
    ItoaChars(index);
    AtoiOfItoa(index);
    assert Itoa(index)[0] != '<';
  }

  lemma BaseStarts(n: SummaryNode)
    ensures var s := Base(n);
            !HasPrefix(s, "(") && (HasPrefix(s, ARG_PREFIX) <==> n.Argument?) && (HasPrefix(s, RETURN_PREFIX) <==> n.Return?)
  {
    var s := Base(n);
    assert s[0] == '!' && (n.Argument? <==> s[1] == 'a') && (n.Return? <==> s[3] == 't' && s[1] == 'r');
    assert n.Argument? ==> s[..5] == ARG_PREFIX;
    assert n.Return? ==> s[..4] == RETURN_PREFIX;
  }

  lemma BaseParses(n: SummaryNode)
    requires Canonical(n)
    ensures ParseBase(Base(n)) == Ok(n.WithObjectPath(""))
  {
    BaseStarts(n);
    match n
    case Receiver(_) =>
    case Argument(name, index, _) =>
      if name != "" {
        NameParses(name);
      } else {
        IndexParses(index);
      }
    case Return(index, _) =>
      IndexParses(index);
  }

  lemma BaseChars(n: SummaryNode)
    requires Canonical(n)
    ensures ')' !in Base(n)
  {
    match n
    case Receiver(_) =>
    case Argument(name, index, _) =>
      ItoaChars(index);
    case Return(index, _) =>
      ItoaChars(index);
  }

  lemma PathParses(base: string, path: string)
    requires ')' !in base && !HasPrefix(base, "(")
    ensures Parse("(" + base + ")" + path) ==
            if ParseBase(base).Err? then ParseBase(base) else Ok(ParseBase(base).node.WithObjectPath(path))
  {
    var s, rest := "(" + base + ")" + path, base + ")" + path;
    assert s == "(" + rest && s[1..] == rest && HasPrefix(s, "(");
    CutBefore(base, path, ')');
  }

  // Parsing the printed form gives a node back if and only if it is canonical.
  lemma PrintParse(n: SummaryNode)
    ensures Parse(Print(n)) == Ok(n) <==> Canonical(n)
  {
    if Canonical(n) {
      BaseStarts(n);
      BaseParses(n);
      BaseChars(n);
      PathParses(Base(n), n.objectPath);
    } else {
      ParsedIsCanonical(Print(n));
    }
  }

  // Printing what was parsed from any accepted string parses to the same node,
  // so printing after parsing changes nothing the second time.
  lemma ParsePrintParse(s: string)
    requires Parse(s).Ok?
    ensures Parse(Print(Parse(s).node)) == Parse(s)
  {
    ParsedIsCanonical(s);
    PrintParse(Parse(s).node);
  }

  // Two canonical nodes print differently unless they are the same.
  lemma PrintInjective(m: SummaryNode, n: SummaryNode)
    requires Canonical(m) && Canonical(n) && Print(m) == Print(n)
    ensures m == n
  {
    PrintParse(m);
    PrintParse(n);
  }

  // How nodes are written.
  lemma PrintedForm(n: SummaryNode)
    ensures var base := match n
                        case Receiver(_) => "!receiver"
                        case Argument(name, index, _) => if name != "" then "!arg <" + name + ">" else "!arg " + Itoa(index)
                        case Return(index, _) => "!ret " + Itoa(index);
            Print(n) == if n.objectPath == "" then base else "(" + base + ")" + n.objectPath
  {
    match n
    case Receiver(_) =>
    case Argument(name, index, _) =>
      assert "!arg " + ("<" + name + ">") == "!arg <" + name + ">";
    case Return(index, _) =>
  }

  // What is not accepted, and with which error.
  lemma NameRejected(t: string)
    requires !ValidName(t)
    ensures ParseBase("!arg <" + t + ">") == Err(BadName("!arg <" + t + ">", t))
  {
    assert "!arg <" + t + ">" == ARG_PREFIX + ("<" + (t + ">"));
    TrimPrefixed(ARG_PREFIX, "<" + (t + ">"));
    TrimPrefixed("<", t + ">");
    assert "<" + (t + ">") == ("<" + t) + ">";
    TrimSuffixed("<" + t, ">");
    TrimSuffixed(t, ">");
  }

  lemma IndexRejected(t: string)
    requires Atoi(t) == None
    ensures !HasPrefix(t, "<") ==> ParseBase("!arg " + t) == Err(NotAnInteger("!arg " + t, t))
    ensures ParseBase("!ret " + t) == Err(NotAnInteger("!ret " + t, t))
  {
    TrimPrefixed(ARG_PREFIX, t);
    TrimPrefixed(RETURN_PREFIX + " ", t);
    assert ("!ret " + t)[..4] == RETURN_PREFIX && ("!ret " + t)[1] != 'a';
  }

  lemma OpenNameRejected(t: string)
    requires t == "" || t[|t| - 1] != '>'
    ensures ParseBase("!arg <" + t) == Err(NotAnInteger("!arg <" + t, "<" + t))
  {
    assert "!arg <" + t == ARG_PREFIX + ("<" + t);
    TrimPrefixed(ARG_PREFIX, "<" + t);
    assert !IsDigit(("<" + t)[0]);
  }

  lemma OthersRejected(t: string)
    requires !HasPrefix(t, "!arg ") && !HasPrefix(t, "!ret") && t != "!receiver"
    ensures ParseBase(t) == Err(CannotParse(t))
  {
  }

  // Names start with a letter or an underscore; digits may follow.
  lemma NameExamples()
    ensures ValidName("_") && ValidName("azAZ_09") && ValidName("A") && ValidName("z") && !ValidName("") && !ValidName("9a") && !ValidName("a.b") && !ValidName("a-b")
  {
    assert "a.b"[1] == '.' && "a-b"[1] == '-' && "9a"[0] == '9';
  }

  // A return without an index is the first one.
  lemma ReturnAlone()
    ensures Parse("!ret") == Ok(Return(0, ""))
  {
    assert "!ret"[0] != '(' && "!ret"[1] != 'a';
    assert !HasPrefix("!ret", "(") && !HasPrefix("!ret", ARG_PREFIX);
  }

  // An object path cannot be given twice.
  lemma NestedPathRejected(s: string)
    requires HasPrefix(s, "((")
    ensures Parse(s).Err?
  {
    var cut := Cut(s[1..], ')');
    if cut.Some? {
      var base := cut.value.0;
      assert s[1..][0] == '(';
      assert base[0] == '(';
      assert ')' !in base[1..];
    }
  }

  // The printed name of an argument loses its index.
  lemma NameLosesIndex(name: string, index: int, path: string)
    requires ValidName(name)
    ensures Parse(Print(Argument(name, index, path))) == Ok(Argument(name, 0, path))
  {
    PrintParse(Argument(name, 0, path));
    assert Print(Argument(name, index, path)) == Print(Argument(name, 0, path));
  }
}
