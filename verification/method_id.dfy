/** The `Method` value of the call-graph engine: its canonical string
    `class:func(a1,a2,...)` and the parser for the method grammar
    `([\w[\]$.]+):([\w<>$]+)\(([\w.[\]$,]*)\)` applied with `match`
    (anchored at the start, not at the end). */
module MethodId {
  import opened Common

  /** A callable: declaring class, method name, parameter types. A method
      without parameters carries the single empty type `[""]`, because the
      source keeps `"".split(",")`. */
  datatype Method = Method(className: string, funcName: string, argTypes: seq<string>)

  /** The assertion failures of the call-log parser. */
  datatype ParseError =
    | MethodMismatch(text: string)     // a method substring outside the grammar
    | MissingCallType(line: string)    // the line ends before the call-kind character (an `IndexError`)

  /** `[\w[\]$.]`: characters of a class name. */
  predicate IsClassChar(c: char) {
    IsWordChar(c) || c == '[' || c == ']' || c == '$' || c == '.'
  }

  /** `[\w<>$]`: characters of a method name. */
  predicate IsFuncChar(c: char) {
    IsWordChar(c) || c == '<' || c == '>' || c == '$'
  }

  /** `[\w.[\]$,]`: characters of the parameter list, separators included. */
  predicate IsArgChar(c: char) {
    IsWordChar(c) || c == '.' || c == '[' || c == ']' || c == '$' || c == ','
  }

  /** `Method.__str__`. */
  function ToString(m: Method): string {
    m.className + ":" + m.funcName + "(" + Join(m.argTypes, ",") + ")"
  }

  /** The methods the grammar can produce: non-empty class and method names
      over their character classes, and a parameter list that is the split
      of an argument text (at least one piece, no piece holding a comma). */
  predicate WellFormed(m: Method) {
    && |m.className| > 0 && All(m.className, IsClassChar)
    && |m.funcName| > 0 && All(m.funcName, IsFuncChar)
    && |m.argTypes| > 0
    && forall k | 0 <= k < |m.argTypes| :: All(m.argTypes[k], IsArgChar) && ',' !in m.argTypes[k]
  }

  /** `extract_method`: parses a method at the start of `s` and returns it
      with the number of characters consumed; text after the closing
      parenthesis is ignored. A text that does not start with a method is
      the source's assertion failure. Each greedy group of the pattern is a
      maximal run of its class, because the character that must follow it
      (`:`, `(`, `)`) is outside the class. */
  function ExtractMethod(s: string): (r: Result<(Method, nat), ParseError>)
    ensures r.Ok? ==> 0 < r.value.1 <= |s|
    ensures r.Err? ==> r.error == MethodMismatch(s)
  {
    var i := Span(s, IsClassChar);
    if i == 0 || i == |s| || s[i] != ':' then Err(MethodMismatch(s))
    else
      var t := s[i + 1..];
      var j := Span(t, IsFuncChar);
      if j == 0 || j == |t| || t[j] != '(' then Err(MethodMismatch(s))
      else
        var u := t[j + 1..];
        var k := Span(u, IsArgChar);
        if k == |u| || u[k] != ')' then Err(MethodMismatch(s))
        else Ok((Method(s[..i], t[..j], Split(u[..k], ',')), i + j + k + 3))
  }

  /** Soundness of the parser: what `extract_method` returns is a
      well-formed method whose canonical string is exactly the consumed
      prefix. */
  lemma ExtractMethodSound(s: string)
    requires ExtractMethod(s).Ok?
    ensures && WellFormed(ExtractMethod(s).value.0)
              && ExtractMethod(s).value.1 <= |s|
              && s[..ExtractMethod(s).value.1] == ToString(ExtractMethod(s).value.0)
  {
    var i := Span(s, IsClassChar);
    OkScans(s);
    var t := s[i + 1..];
    var j := Span(t, IsFuncChar);
    var u := t[j + 1..];
    var k := Span(u, IsArgChar);
    ScannedMethod(s, i, t, j, u, k);
  }

  /** A successful parse: where each scan stopped, and the method and
      length built from the three runs. */
  lemma OkScans(s: string)
    requires ExtractMethod(s).Ok?
    ensures var i := Span(s, IsClassChar);
            && 0 < i < |s| && s[i] == ':'
            && var t := s[i + 1..];
               var j := Span(t, IsFuncChar);
               && 0 < j < |t| && t[j] == '('
               && var u := t[j + 1..];
                  var k := Span(u, IsArgChar);
                  && k < |u| && u[k] == ')'
                  && ExtractMethod(s).value.0 == Method(s[..i], t[..j], Split(u[..k], ','))
                  && ExtractMethod(s).value.1 == i + j + k + 3
  {
  }

  /** The three scans of `ExtractMethod`, when each stops at its expected
      delimiter, delimit the canonical string of a well-formed method. */
  lemma ScannedMethod(s: string, i: nat, t: string, j: nat, u: string, k: nat)
    requires 0 < i < |s| && s[i] == ':' && All(s[..i], IsClassChar) && t == s[i + 1..]
    requires 0 < j < |t| && t[j] == '(' && All(t[..j], IsFuncChar) && u == t[j + 1..]
    requires k < |u| && u[k] == ')' && All(u[..k], IsArgChar)
    ensures WellFormed(Method(s[..i], t[..j], Split(u[..k], ',')))
    ensures s[..i + j + k + 3] == ToString(Method(s[..i], t[..j], Split(u[..k], ',')))
  {
    SplitKeepsClass(u[..k], ',', IsArgChar);
    ScannedString(s, i, t, j, u, k);
  }

  lemma ScannedString(s: string, i: nat, t: string, j: nat, u: string, k: nat)
    requires 0 < i < |s| && s[i] == ':' && t == s[i + 1..]
    requires 0 < j < |t| && t[j] == '(' && u == t[j + 1..]
    requires k < |u| && u[k] == ')'
    ensures s[..i + j + k + 3] == ToString(Method(s[..i], t[..j], Split(u[..k], ',')))
  {
    var a := u[..k];
    var m := Method(s[..i], t[..j], Split(a, ','));
    assert ToString(m) == s[..i] + ":" + t[..j] + "(" + a + ")" by {
      JoinSplit(a, ',');
    }
    assert u[..k + 1] == a + ")" by {
      SliceAround(u, k, 0);
    }
    assert t[..j + k + 2] == t[..j] + "(" + (a + ")") by {
      SliceAround(t, j, k + 1);
    }
    assert s[..i + j + k + 3] == s[..i] + ":" + (t[..j] + "(" + (a + ")")) by {
      SliceAround(s, i, j + k + 2);
    }
  }

  /** A prefix reaching past position `i` splits around `s[i]`. */
  lemma SliceAround(s: string, i: nat, len: nat)
    requires i + 1 + len <= |s|
    ensures s[..i + 1 + len] == s[..i] + [s[i]] + s[i + 1..][..len]
  {
  }

  /** A run of class characters followed by a character outside the class
      is exactly what `Span` consumes. */
  lemma {:induction false} SpanConcat(c: string, rest: string, p: char -> bool)
    requires All(c, p) && |rest| > 0 && !p(rest[0])
    ensures Span(c + rest, p) == |c|
  {
    if |c| > 0 {
      assert (c + rest)[1..] == c[1..] + rest;
      SpanConcat(c[1..], rest, p);
    }
  }

  /** Completeness of the parser: whenever `s` starts with the canonical
      string of a well-formed method, `extract_method` finds exactly that
      method and consumes exactly that string. */
  lemma ExtractMethodComplete(s: string, m: Method, n: nat)
    requires WellFormed(m)
    requires n <= |s| && s[..n] == ToString(m)
    ensures ExtractMethod(s) == Ok((m, n))
  {
    var c, f, a := m.className, m.funcName, Join(m.argTypes, ",");
    CanonicalScans(s, m, n);
    ScansStop(s, |c|, |f|, |a|);
    var r := ExtractMethod(s);
    assert r.value.0.argTypes == m.argTypes by {
      SplitJoin(m.argTypes, ',');
    }
    assert r.value.0 == m;
  }

  /** On a text starting with a canonical method string, the three scans of
      `ExtractMethod` stop at `:`, `(` and `)` after the class name, the
      method name and the joined parameter list. */
  lemma CanonicalScans(s: string, m: Method, n: nat)
    requires WellFormed(m)
    requires n <= |s| && s[..n] == ToString(m)
    ensures var c, f, a := m.className, m.funcName, Join(m.argTypes, ",");
            && n == |c| + |f| + |a| + 3
            && Span(s, IsClassChar) == |c| && 0 < |c| < |s| && s[|c|] == ':' && s[..|c|] == c
            && Span(s[|c| + 1..], IsFuncChar) == |f| && 0 < |f| < |s[|c| + 1..]|
            && s[|c| + 1..][|f|] == '(' && s[|c| + 1..][..|f|] == f
            && Span(s[|c| + 1..][|f| + 1..], IsArgChar) == |a| && |a| < |s[|c| + 1..][|f| + 1..]|
            && s[|c| + 1..][|f| + 1..][|a|] == ')' && s[|c| + 1..][|f| + 1..][..|a|] == a
  {
    var c, f, a := m.className, m.funcName, Join(m.argTypes, ",");
    var u := a + (")" + s[n..]);
    var t := f + ("(" + u);
    assert s == c + (":" + t) by {
      assert s == s[..n] + s[n..];
    }
    assert All(a, IsArgChar) by {
      JoinKeepsClass(m.argTypes, ",", IsArgChar);
    }
    ScanTo(s, c, ':', t, IsClassChar);
    ScanTo(t, f, '(', u, IsFuncChar);
    ScanTo(u, a, ')', s[n..], IsArgChar);
  }

  /** A run of class characters, a delimiter outside the class, then the
      rest: the scan stops at the delimiter and the text splits there. */
  lemma ScanTo(s: string, x: string, d: char, rest: string, p: char -> bool)
    requires All(x, p) && !p(d) && s == x + ([d] + rest)
    ensures Span(s, p) == |x| && |x| < |s| && s[|x|] == d
    ensures s[..|x|] == x && s[|x| + 1..] == rest
  {
    SpanConcat(x, [d] + rest, p);
  }

  /** `ExtractMethod` when its three scans stop at the expected delimiters. */
  lemma ScansStop(s: string, i: nat, j: nat, k: nat)
    requires Span(s, IsClassChar) == i && 0 < i < |s| && s[i] == ':'
    requires Span(s[i + 1..], IsFuncChar) == j && 0 < j < |s[i + 1..]| && s[i + 1..][j] == '('
    requires Span(s[i + 1..][j + 1..], IsArgChar) == k && k < |s[i + 1..][j + 1..]|
    requires s[i + 1..][j + 1..][k] == ')'
    ensures ExtractMethod(s).Ok?
    ensures ExtractMethod(s).value.1 == i + j + k + 3
    ensures ExtractMethod(s).value.0.className == s[..i]
    ensures ExtractMethod(s).value.0.funcName == s[i + 1..][..j]
    ensures ExtractMethod(s).value.0.argTypes == Split(s[i + 1..][j + 1..][..k], ',')
  {
  }

  /** Round trip: a method's canonical string, followed by anything, parses
      back to the method and consumes exactly that string. */
  lemma ParseToString(m: Method, rest: string)
    requires WellFormed(m)
    ensures ExtractMethod(ToString(m) + rest) == Ok((m, |ToString(m)|))
  {
    var s := ToString(m) + rest;
    assert s[..|ToString(m)|] == ToString(m);
    ExtractMethodComplete(s, m, |ToString(m)|);
  }

  /** `__hash__` hashes the canonical string while `__eq__` compares the
      fields: on the methods the parser produces the two agree, because
      distinct methods have distinct strings. */
  lemma ToStringInjective(m1: Method, m2: Method)
    requires WellFormed(m1) && WellFormed(m2)
    ensures ToString(m1) == ToString(m2) <==> m1 == m2
  {
    if ToString(m1) == ToString(m2) {
      var s := ToString(m1);
      assert s[..|s|] == s;
      ExtractMethodComplete(s, m1, |s|);
      ExtractMethodComplete(s, m2, |s|);
    }
  }
}
