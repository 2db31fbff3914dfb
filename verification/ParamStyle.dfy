/** Placeholder rewriting, as an encoding the driver decodes. */
module ParamStyle {
  import opened Common

  datatype Style = Qmark | Pyformat

  /** Every occurrence of `c` replaced by `text`, in one left-to-right pass. */
  function Replace(s: string, c: char, text: string): string {
    if s == [] then []
    else (if s[0] == c then text else [s[0]]) + Replace(s[1..], c, text)
  }

  function Render(style: Style, sql: string): string {
    match style
    case Qmark => sql
    case Pyformat => Replace(Replace(sql, '%', "%%"), '?', "%s")
  }

  /** A statement as the driver sees it: text, and the places its parameters are bound. */
  datatype Token = Text(c: char) | Placeholder

  /** The canonical reading: every `?` is a placeholder. */
  function Tokens(sql: string): seq<Token> {
    if sql == [] then []
    else [if sql[0] == '?' then Placeholder else Text(sql[0])] + Tokens(sql[1..])
  }

  /** The pyformat reading, left to right: `%%` is a percent sign and `%s` a placeholder. */
  function Decode(s: string): Option<seq<Token>> {
    if s == [] then Some([])
    else if s[0] != '%' then
      match Decode(s[1..]) case Some(rest) => Some([Text(s[0])] + rest) case None => None
    else if |s| == 1 then None
    else
      match Decode(s[2..])
      case None => None
      case Some(rest) =>
        if s[1] == '%' then Some([Text('%')] + rest)
        else if s[1] == 's' then Some([Placeholder] + rest)
        else None
  }

  lemma {:induction false} ReplaceConcat(a: string, b: string, c: char, text: string)
    ensures Replace(a + b, c, text) == Replace(a, c, text) + Replace(b, c, text)
  {
    if a == [] {
      assert a + b == b;
    } else {
      assert (a + b)[1..] == a[1..] + b;
      ReplaceConcat(a[1..], b, c, text);
    }
  }

  function Encoded(c: char): string {
    if c == '%' then "%%" else if c == '?' then "%s" else [c]
  }

  lemma RenderStep(sql: string)
    requires sql != []
    ensures Render(Pyformat, sql) == Encoded(sql[0]) + Render(Pyformat, sql[1..])
  {
    var first := if sql[0] == '%' then "%%" else [sql[0]];
    ReplaceConcat(first, Replace(sql[1..], '%', "%%"), '?', "%s");
    assert Replace(first, '?', "%s") == Encoded(sql[0]) by {
      assert first[1..] == if sql[0] == '%' then "%" else [];
      assert "%"[1..] == [];
    }
  }

  lemma DecodeStep(c: char, rest: string)
    ensures Decode(Encoded(c) + rest) ==
      match Decode(rest)
      case Some(tokens) => Some([if c == '?' then Placeholder else Text(c)] + tokens)
      case None => None
  {
  }

  /** For every statement, the driver recovers exactly the canonical reading. */
  lemma {:induction false} DecodeRender(sql: string)
    ensures Decode(Render(Pyformat, sql)) == Some(Tokens(sql))
  {
    if sql != [] {
      hide Render;
      RenderStep(sql);
      DecodeRender(sql[1..]);
      DecodeStep(sql[0], Render(Pyformat, sql[1..]));
    } else {
      assert Render(Pyformat, "") == "";
    }
  }

  /** How the driver reads a statement: as it stands, or decoding percent signs. */
  function DriverReads(style: Style, text: string): Option<seq<Token>> {
    match style
    case Qmark => Some(Tokens(text))
    case Pyformat => Decode(text)
  }

  /** Whatever its style, the driver reads the canonical statement; a qmark driver even sees its text. */
  lemma DriverReadsCanonical(style: Style, sql: string)
    ensures DriverReads(style, Render(style, sql)) == Some(Tokens(sql))
    ensures style == Qmark ==> Render(style, sql) == sql
  {
    if style == Pyformat {
      DecodeRender(sql);
    }
  }

  /** No two statements are rendered alike. */
  lemma RenderIsInjective(a: string, b: string)
    requires Render(Pyformat, a) == Render(Pyformat, b)
    ensures a == b
  {
    DecodeRender(a);
    DecodeRender(b);
    TokensDetermine(a, b);
  }

  lemma {:induction false} TokensDetermine(a: string, b: string)
    requires Tokens(a) == Tokens(b)
    ensures a == b
  {
    if a != [] && b != [] {
      assert Tokens(a)[0] == Tokens(b)[0] && Tokens(a)[1..] == Tokens(b)[1..];
      TokensDetermine(a[1..], b[1..]);
      assert a == [a[0]] + a[1..] && b == [b[0]] + b[1..];
    }
  }

  lemma {:induction false} TokensConcat(a: string, b: string)
    ensures Tokens(a + b) == Tokens(a) + Tokens(b)
  {
    if a == [] {
      assert a + b == b;
    } else {
      assert (a + b)[1..] == a[1..] + b;
      TokensConcat(a[1..], b);
    }
  }

  // ----- Binding -----

  /** How many parameters a statement binds. */
  function Placeholders(tokens: seq<Token>): nat {
    if tokens == [] then 0 else (if tokens[0] == Placeholder then 1 else 0) + Placeholders(tokens[1..])
  }

  lemma {:induction false} PlaceholdersConcat(a: seq<Token>, b: seq<Token>)
    ensures Placeholders(a + b) == Placeholders(a) + Placeholders(b)
  {
    if a == [] {
      assert a + b == b;
    } else {
      assert (a + b)[1..] == a[1..] + b;
      PlaceholdersConcat(a[1..], b);
    }
  }

  /** One place of a bound statement: a character of its text, or the parameter bound there. */
  datatype Bound<V> = Literal(c: char) | Value(v: V)

  /** Parameters are bound to placeholders one by one, left to right; too few or too many is an error. */
  function Bind<V>(tokens: seq<Token>, params: seq<V>): Option<seq<Bound<V>>> {
    if tokens == [] then if params == [] then Some([]) else None
    else if tokens[0] == Placeholder then
      if params == [] then None
      else match Bind(tokens[1..], params[1..]) case Some(rest) => Some([Value(params[0])] + rest) case None => None
    else
      match Bind(tokens[1..], params) case Some(rest) => Some([Literal(tokens[0].c)] + rest) case None => None
  }

  function Literals<V>(s: string): seq<Bound<V>> {
    if s == [] then [] else [Literal(s[0])] + Literals(s[1..])
  }

  /** Binding succeeds iff there is one parameter per placeholder. */
  lemma {:induction false} BindIff<V>(tokens: seq<Token>, params: seq<V>)
    ensures Bind(tokens, params).Some? <==> |params| == Placeholders(tokens)
    decreases |tokens|
  {
    if tokens != [] {
      BindIff(tokens[1..], if tokens[0] == Placeholder && params != [] then params[1..] else params);
    }
  }

  /** The first part of a statement takes the first parameters, the second part the rest. */
  lemma {:induction false} BindConcat<V>(a: seq<Token>, b: seq<Token>, xs: seq<V>, ys: seq<V>)
    requires Bind(a, xs).Some? && Bind(b, ys).Some?
    ensures Bind(a + b, xs + ys) == Some(Bind(a, xs).value + Bind(b, ys).value)
    decreases |a|
  {
    if a == [] {
      assert a + b == b && xs + ys == ys;
      assert Bind(a, xs).value + Bind(b, ys).value == Bind(b, ys).value;
    } else {
      assert (a + b)[0] == a[0] && (a + b)[1..] == a[1..] + b;
      if a[0] == Placeholder {
        assert (xs + ys)[0] == xs[0] && (xs + ys)[1..] == xs[1..] + ys;
        BindConcat(a[1..], b, xs[1..], ys);
        PrependToBoth(Value(xs[0]), Bind(a[1..], xs[1..]).value, Bind(b, ys).value);
      } else {
        BindConcat(a[1..], b, xs, ys);
        PrependToBoth(Literal(a[0].c), Bind(a[1..], xs).value, Bind(b, ys).value);
      }
    }
  }

  lemma PrependToBoth<V>(first: Bound<V>, a: seq<Bound<V>>, b: seq<Bound<V>>)
    ensures [first] + (a + b) == ([first] + a) + b
  {
  }

  lemma {:induction false} TextBindsNothing<V>(s: string)
    requires '?' !in s
    ensures Bind<V>(Tokens(s), []) == Some(Literals(s))
  {
    if s != [] {
      assert Tokens(s)[1..] == Tokens(s[1..]);
      TextBindsNothing<V>(s[1..]);
    }
  }
}
