/** Moving a trailing `LIMIT n` into a leading `TOP n`. */
module StatementDialect {
  import opened Common
  import opened ParamStyle

  datatype Dialect = Ansi | Tsql

  // ----- Character classes, over ASCII -----

  predicate IsSpace(c: char) {
    var n := c as int;
    9 <= n <= 13 || 28 <= n <= 32
  }

  function Upper(c: char): char {
    if 'a' <= c <= 'z' then (c as int - 32) as char else c
  }

  /** The length of the longest prefix whose characters all satisfy `p`. */
  function Span(s: string, p: char -> bool): (n: nat)
    ensures n <= |s|
    ensures forall i :: 0 <= i < n ==> p(s[i])
    ensures n < |s| ==> !p(s[n])
  {
    if s == [] || !p(s[0]) then 0 else 1 + Span(s[1..], p)
  }

  /** `s` starts with the upper-case word `w`, whatever its case. */
  predicate StartsWith(s: string, w: string) {
    |s| >= |w| && forall i :: 0 <= i < |w| ==> Upper(s[i]) == w[i]
  }

  // ----- The two patterns -----

  /** `\s+(\d+)\s*` over the whole of `t`, capturing the digits. */
  function MatchCount(t: string): Option<string> {
    var n := Span(t, IsSpace);
    var rest := t[n..];
    var m := Span(rest, IsDigit);
    if n == 0 || m == 0 || Span(rest[m..], IsSpace) != |rest| - m then None else Some(rest[..m])
  }

  /** `\s+LIMIT\s+(\d+)\s*` over the whole of `t`, capturing the digits. */
  function MatchLimit(t: string): Option<string> {
    var n := Span(t, IsSpace);
    var rest := t[n..];
    if n == 0 || !StartsWith(rest, "LIMIT") then None else MatchCount(rest[5..])
  }

  datatype LimitMatch = LimitMatch(start: nat, digits: string)

  /** The leftmost trailing limit clause at or after `i`. */
  function SearchLimit(sql: string, i: nat): (m: Option<LimitMatch>)
    requires i <= |sql|
    ensures m.Some? ==> i <= m.value.start <= |sql|
    decreases |sql| - i
  {
    match MatchLimit(sql[i..])
    case Some(digits) => Some(LimitMatch(i, digits))
    case None => if i == |sql| then None else SearchLimit(sql, i + 1)
  }

  /** The length of an optional `DISTINCT\s+` at the start of `t`. */
  function DistinctEnd(t: string): (end: nat)
    ensures end <= |t|
  {
    if !StartsWith(t, "DISTINCT") then 0 else
    var m := Span(t[8..], IsSpace);
    if m == 0 then 0 else 8 + m
  }

  /** The end of `SELECT\s+(?:DISTINCT\s+)?` at the start of the statement. */
  function HeadEnd(sql: string): (end: Option<nat>)
    ensures end.Some? ==> 7 <= end.value <= |sql|
  {
    if !StartsWith(sql, "SELECT") then None else
    var n := Span(sql[6..], IsSpace);
    if n == 0 then None else Some(6 + n + DistinctEnd(sql[6 + n..]))
  }

  /** Slicing past the end is clamped. */
  function Take(s: string, n: nat): string {
    if n <= |s| then s[..n] else s
  }

  function Drop(s: string, n: nat): string {
    if n <= |s| then s[n..] else []
  }

  function WithTop(body: string, end: nat, digits: string): string {
    Take(body, end) + ("TOP " + (digits + (" " + Drop(body, end))))
  }

  function Render(dialect: Dialect, sql: string): string {
    match dialect
    case Ansi => sql
    case Tsql =>
      match (SearchLimit(sql, 0), HeadEnd(sql))
      case (Some(limit), Some(end)) => WithTop(sql[..limit.start], end, limit.digits)
      case _ => sql
  }

  // ----- The matcher against the pattern it implements -----

  ghost predicate AllSatisfy(s: string, p: char -> bool) {
    forall i :: 0 <= i < |s| ==> p(s[i])
  }

  /** `t` is whitespace, digits, and trailing whitespace. */
  ghost predicate IsCount(t: string, b: string, digits: string, c: string) {
    && t == b + (digits + c)
    && b != [] && AllSatisfy(b, IsSpace)
    && digits != [] && AllSatisfy(digits, IsDigit)
    && AllSatisfy(c, IsSpace)
  }

  /** `t` is whitespace, the word, and a count. */
  ghost predicate IsLimitClause(t: string, a: string, word: string, b: string, digits: string, c: string) {
    && t == a + (word + (b + (digits + c)))
    && a != [] && AllSatisfy(a, IsSpace)
    && |word| == 5 && StartsWith(word, "LIMIT")
    && IsCount(b + (digits + c), b, digits, c)
  }

  lemma SpanOf(a: string, rest: string, p: char -> bool)
    requires AllSatisfy(a, p) && (rest == [] || !p(rest[0]))
    ensures Span(a + rest, p) == |a| && (a + rest)[|a|..] == rest
  {
  }

  lemma CountIsMatched(t: string, b: string, digits: string, c: string)
    requires IsCount(t, b, digits, c)
    ensures MatchCount(t) == Some(digits)
  {
    hide Span;
    assert (digits + c)[0] == digits[0];
    SpanOf(b, digits + c, IsSpace);
    assert c != [] ==> IsSpace(c[0]);
    SpanOf(digits, c, IsDigit);
    SpanOf(c, [], IsSpace);
    assert c + [] == c;
    assert (digits + c)[..|digits|] == digits;
  }

  lemma MatchIsCount(t: string)
    requires MatchCount(t).Some?
    ensures exists b, c :: IsCount(t, b, MatchCount(t).value, c)
  {
    hide Span;
    var n := Span(t, IsSpace);
    var rest := t[n..];
    var m := Span(rest, IsDigit);
    assert rest == rest[..m] + rest[m..] && t == t[..n] + rest;
    assert IsCount(t, t[..n], rest[..m], rest[m..]);
  }

  /** Greedy matching loses nothing: the captured digits are those of any decomposition. */
  lemma ClauseIsMatched(t: string, a: string, word: string, b: string, digits: string, c: string)
    requires IsLimitClause(t, a, word, b, digits, c)
    ensures MatchLimit(t) == Some(digits)
  {
    hide Span, MatchCount;
    var count := b + (digits + c);
    var rest := word + count;
    assert forall i :: 0 <= i < 5 ==> rest[i] == word[i];
    assert Upper(word[0]) == 'L';
    SpanOf(a, rest, IsSpace);
    assert rest[5..] == count;
    CountIsMatched(count, b, digits, c);
  }

  lemma MatchIsClause(t: string)
    requires MatchLimit(t).Some?
    ensures exists a, word, b, c :: IsLimitClause(t, a, word, b, MatchLimit(t).value, c)
  {
    hide Span, MatchCount, IsCount;
    var n := Span(t, IsSpace);
    var rest := t[n..];
    MatchIsCount(rest[5..]);
    var b, c :| IsCount(rest[5..], b, MatchLimit(t).value, c);
    CountShape(rest[5..], b, MatchLimit(t).value, c);
    assert rest == rest[..5] + rest[5..] && t == t[..n] + rest;
    assert IsLimitClause(t, t[..n], rest[..5], b, MatchLimit(t).value, c);
  }

  lemma CountShape(t: string, b: string, digits: string, c: string)
    requires IsCount(t, b, digits, c)
    ensures t == b + (digits + c) && digits != [] && AllSatisfy(digits, IsDigit)
  {
  }

  /** The character classes, spelled out: the ASCII white space, and the letters that differ in case. */
  lemma ClassesAreAscii(c: char)
    ensures IsSpace(c) <==> c in "\t\n\U{0B}\U{0C}\r\U{1C}\U{1D}\U{1E}\U{1F} "
    ensures IsDigit(c) <==> c in "0123456789"
    ensures 'A' <= c <= 'Z' ==> forall d :: Upper(d) == c <==> d == c || d as int == c as int + 32
  {
  }

  /** The matcher accepts exactly the limit clauses, and captures exactly their digits. */
  lemma MatchLimitIff(t: string, digits: string)
    ensures MatchLimit(t) == Some(digits) <==> exists a, word, b, c :: IsLimitClause(t, a, word, b, digits, c)
  {
    hide MatchLimit, IsLimitClause;
    if MatchLimit(t) == Some(digits) {
      MatchIsClause(t);
    }
    if exists a, word, b, c :: IsLimitClause(t, a, word, b, digits, c) {
      var a, word, b, c :| IsLimitClause(t, a, word, b, digits, c);
      ClauseIsMatched(t, a, word, b, digits, c);
    }
  }

  lemma {:induction false} SearchIsLeftmost(sql: string, i: nat)
    requires i <= |sql|
    ensures match SearchLimit(sql, i)
      case Some(m) =>
        && i <= m.start <= |sql| && MatchLimit(sql[m.start..]) == Some(m.digits)
        && forall k :: i <= k < m.start ==> MatchLimit(sql[k..]).None?
      case None => forall k :: i <= k <= |sql| ==> MatchLimit(sql[k..]).None?
    decreases |sql| - i
  {
    hide MatchLimit;
    if MatchLimit(sql[i..]).None? && i < |sql| {
      SearchIsLeftmost(sql, i + 1);
    }
  }

  // ----- The select head -----

  /** `head` is the word `SELECT` and white space, and perhaps the word `DISTINCT` and white space. */
  ghost predicate IsSelectHead(head: string, select: string, a: string, distinct: string, b: string) {
    && head == select + a + (distinct + b)
    && |select| == 6 && StartsWith(select, "SELECT")
    && a != [] && AllSatisfy(a, IsSpace)
    && (distinct == [] ==> b == [])
    && (distinct != [] ==>
          |distinct| == 8 && StartsWith(distinct, "DISTINCT") && b != [] && AllSatisfy(b, IsSpace))
  }

  /** A statement begins with a select head. */
  ghost predicate BeginsWith(sql: string, n: nat) {
    n <= |sql| && exists select, a, distinct, b :: IsSelectHead(sql[..n], select, a, distinct, b)
  }

  lemma HeadIsSelectHead(sql: string)
    requires HeadEnd(sql).Some?
    ensures BeginsWith(sql, HeadEnd(sql).value)
  {
    hide Span, StartsWith, HeadEnd, IsSpace;
    HeadShape(sql);
    var n := Span(sql[6..], IsSpace);
    var t := sql[6 + n..];
    var k := DistinctEnd(t);
    var (select, a) := (sql[..6], sql[6..][..n]);
    StartsAlike(sql, select, "SELECT");
    if k == 0 {
      assert sql[..6 + n] == select + a + ([] + []);
      assert IsSelectHead(sql[..6 + n], select, a, [], []);
    } else {
      var (distinct, b) := (t[..8], t[8..][..k - 8]);
      StartsAlike(t, distinct, "DISTINCT");
      assert sql[..6 + n + k] == select + a + (distinct + b);
      assert IsSelectHead(sql[..6 + n + k], select, a, distinct, b);
    }
  }

  lemma HeadPieces(sql: string, n: nat, select: string, a: string, distinct: string, b: string)
    requires n <= |sql| && sql[..n] == select + a + (distinct + b) && |select| == 6
    ensures n == 6 + |a| + |distinct| + |b| && sql[..6] == select && sql[6..] == a + (distinct + b + sql[n..])
  {
    assert sql == sql[..n] + sql[n..];
    assert sql[..n][..6] == select;
  }

  /** Every select head the statement begins with ends at or before the one that is found. */
  lemma NoLongerHead(sql: string, n: nat, select: string, a: string, distinct: string, b: string)
    requires n <= |sql| && IsSelectHead(sql[..n], select, a, distinct, b)
    ensures HeadEnd(sql).Some? && n <= HeadEnd(sql).value
  {
    hide Span, StartsWith, DistinctEnd, IsSpace, AllSatisfy;
    HeadPieces(sql, n, select, a, distinct, b);
    var t := distinct + b + sql[n..];
    StartsAlike(select, sql, "SELECT");
    if distinct == [] {
      hide IsSelectHead;
      SpanAtLeast(a, t, IsSpace);
    } else {
      WordHasNoSpaceAtStart(distinct);
      DistinctIsFound(distinct, b, sql[n..]);
      hide IsSelectHead, HeadEnd;
      assert t[0] == distinct[0];
      HeadEndIs(sql, a, t);
    }
  }

  lemma SpanAtLeast(a: string, rest: string, p: char -> bool)
    requires AllSatisfy(a, p)
    ensures Span(a + rest, p) >= |a|
  {
    assert forall i :: 0 <= i < |a| ==> (a + rest)[i] == a[i];
  }

  lemma WordHasNoSpaceAtStart(distinct: string)
    requires |distinct| == 8 && StartsWith(distinct, "DISTINCT")
    ensures !IsSpace(distinct[0])
  {
  }

  lemma DistinctIsFound(distinct: string, b: string, rest: string)
    requires |distinct| == 8 && StartsWith(distinct, "DISTINCT") && b != [] && AllSatisfy(b, IsSpace)
    ensures DistinctEnd(distinct + b + rest) >= 8 + |b|
  {
    hide Span;
    var t := distinct + b + rest;
    assert t[..8] == distinct;
    StartsAlike(distinct, t, "DISTINCT");
    assert t[8..] == b + rest;
    SpanAtLeast(b, rest, IsSpace);
  }

  /** The head found is the longest select head the statement begins with; none is found iff there is none. */
  lemma HeadIsLongest(sql: string, n: nat)
    ensures HeadEnd(sql) == Some(n) <==> BeginsWith(sql, n) && forall m: nat :: BeginsWith(sql, m) ==> m <= n
    ensures HeadEnd(sql).None? <==> forall m: nat :: !BeginsWith(sql, m)
  {
    hide HeadEnd, IsSelectHead;
    if HeadEnd(sql).Some? {
      HeadIsSelectHead(sql);
    }
    forall m: nat | BeginsWith(sql, m)
      ensures HeadEnd(sql).Some? && m <= HeadEnd(sql).value
    {
      var select, a, distinct, b :| IsSelectHead(sql[..m], select, a, distinct, b);
      NoLongerHead(sql, m, select, a, distinct, b);
    }
  }

  // ----- Placeholders -----

  lemma ClassHasNoMark(s: string, p: char -> bool)
    requires AllSatisfy(s, p) && !p('?')
    ensures '?' !in s
  {
  }

  lemma MarksOfClause(t: string, a: string, word: string, b: string, digits: string, c: string)
    requires IsLimitClause(t, a, word, b, digits, c)
    ensures '?' !in t && '?' !in digits
  {
    ClassHasNoMark(a, IsSpace);
    ClassHasNoMark(b, IsSpace);
    ClassHasNoMark(digits, IsDigit);
    ClassHasNoMark(c, IsSpace);
    assert forall i :: 0 <= i < 5 ==> Upper(word[i]) == "LIMIT"[i] && word[i] != '?';
    hide *;
    assert '?' !in digits + c && '?' !in b + (digits + c) && '?' !in word + (b + (digits + c));
  }

  lemma ClauseHasNoMarks(t: string)
    requires MatchLimit(t).Some?
    ensures '?' !in t && '?' !in MatchLimit(t).value
  {
    MatchIsClause(t);
    var digits := MatchLimit(t).value;
    var a, word, b, c :| IsLimitClause(t, a, word, b, digits, c);
    hide MatchLimit, IsLimitClause, StartsWith;
    MarksOfClause(t, a, word, b, digits, c);
  }

  /** A statement's rewrite applies: it has a trailing limit and a select head. */
  predicate Rewrites(sql: string) {
    SearchLimit(sql, 0).Some? && HeadEnd(sql).Some?
  }

  lemma RenderIs(sql: string)
    ensures Render(Tsql, sql) ==
      if Rewrites(sql) then
        var limit := SearchLimit(sql, 0).value;
        WithTop(sql[..limit.start], HeadEnd(sql).value, limit.digits)
      else sql
  {
  }

  /** The clause found at the end of the statement, and the digits it captures, bind nothing. */
  lemma LimitHasNoMarks(sql: string)
    requires SearchLimit(sql, 0).Some?
    ensures '?' !in sql[SearchLimit(sql, 0).value.start..] && '?' !in SearchLimit(sql, 0).value.digits
  {
    SearchIsLeftmost(sql, 0);
    hide SearchLimit, MatchLimit;
    ClauseHasNoMarks(sql[SearchLimit(sql, 0).value.start..]);
  }

  lemma TopText(sql: string, start: nat, end: nat, digits: string)
    requires start <= |sql|
    ensures WithTop(sql[..start], end, digits) ==
      (if end <= start then sql[..end] + "TOP " + digits + " " + sql[end..start]
       else sql[..start] + "TOP " + digits + " ")
  {
    if end <= start {
      var front, back := sql[..end], sql[end..start];
      assert sql[..start][..end] == front && sql[..start][end..] == back;
      TopIsInserted(front, digits, back);
    } else {
      TopIsInserted(sql[..start], digits, []);
      assert sql[..start] + "TOP " + digits + " " + [] == sql[..start] + "TOP " + digits + " ";
    }
  }

  lemma TopIsInserted(front: string, digits: string, back: string)
    ensures front + ("TOP " + (digits + (" " + back))) == front + "TOP " + digits + " " + back
  {
  }

  /** The text of every rendering: unchanged, or without its clause and with `TOP n ` where the head ends. */
  lemma RenderedText(sql: string)
    ensures Render(Ansi, sql) == sql
    ensures !Rewrites(sql) ==> Render(Tsql, sql) == sql
    ensures Rewrites(sql) ==>
      var (end, m) := (HeadEnd(sql).value, SearchLimit(sql, 0).value);
      Render(Tsql, sql) ==
        if end <= m.start then sql[..end] + "TOP " + m.digits + " " + sql[end..m.start]
        else sql[..m.start] + "TOP " + m.digits + " "
  {
    hide SearchLimit, HeadEnd, WithTop, Take, Drop;
    RenderIs(sql);
    assert Render(Ansi, sql) == sql;
    hide Render;
    if Rewrites(sql) {
      var m := SearchLimit(sql, 0).value;
      TopText(sql, m.start, HeadEnd(sql).value, m.digits);
    }
  }

  /** What a rewrite is made of: the text before and after the head's end, the clause, and the `TOP`. */
  datatype Parts = Parts(front: string, back: string, clause: string, top: string)

  function PartsOf(sql: string): Parts
    requires Rewrites(sql)
  {
    var limit, end := SearchLimit(sql, 0).value, HeadEnd(sql).value;
    var body := sql[..limit.start];
    Parts(Take(body, end), Drop(body, end), sql[limit.start..], "TOP " + (limit.digits + " "))
  }

  lemma PartsJoin(body: string, end: nat, clause: string, digits: string)
    requires '?' !in digits
    ensures body + clause == Take(body, end) + (Drop(body, end) + clause)
    ensures WithTop(body, end, digits) == Take(body, end) + (("TOP " + (digits + " ")) + Drop(body, end))
    ensures '?' !in "TOP " + (digits + " ")
  {
    assert '?' !in digits + " ";
    var front, back := Take(body, end), Drop(body, end);
    assert front + back == body;
    hide Take, Drop;
    assert digits + (" " + back) == (digits + " ") + back;
  }

  /** A rewrite drops the clause and inserts the `TOP`; everything else stays in place, glued or not. */
  lemma RewriteMovesParts(sql: string)
    requires Rewrites(sql)
    ensures var p := PartsOf(sql);
      && sql == p.front + (p.back + p.clause) && Render(Tsql, sql) == p.front + (p.top + p.back)
      && '?' !in p.clause && '?' !in p.top
  {
    RenderIs(sql);
    LimitHasNoMarks(sql);
    var limit := SearchLimit(sql, 0).value;
    hide SearchLimit, HeadEnd, Render, WithTop, Take, Drop;
    assert sql == sql[..limit.start] + sql[limit.start..];
    PartsJoin(sql[..limit.start], HeadEnd(sql).value, sql[limit.start..], limit.digits);
  }

  /** The driver's reading of a rewrite: the same tokens in the same order, clause out and `TOP` in. */
  lemma RewriteMovesTokens(sql: string)
    requires Rewrites(sql)
    ensures var p := PartsOf(sql);
      && Tokens(sql) == Tokens(p.front) + (Tokens(p.back) + Tokens(p.clause))
      && Tokens(Render(Tsql, sql)) == Tokens(p.front) + (Tokens(p.top) + Tokens(p.back))
  {
    RewriteMovesParts(sql);
    var p := PartsOf(sql);
    hide PartsOf, Rewrites, Render, Tokens;
    TokensConcat(p.back, p.clause);
    TokensConcat(p.front, p.back + p.clause);
    TokensConcat(p.top, p.back);
    TokensConcat(p.front, p.top + p.back);
  }

  /** Binding the rewrite gives every placeholder the parameter it has in the source. */
  lemma RewriteBindsTheSame<V>(sql: string, xs: seq<V>, ys: seq<V>)
    requires Rewrites(sql)
    requires Bind(Tokens(PartsOf(sql).front), xs).Some? && Bind(Tokens(PartsOf(sql).back), ys).Some?
    ensures var p := PartsOf(sql);
      var front, back := Bind(Tokens(p.front), xs).value, Bind(Tokens(p.back), ys).value;
      && Bind(Tokens(sql), xs + ys) == Some(front + (back + Literals(p.clause)))
      && Bind(Tokens(Render(Tsql, sql)), xs + ys) == Some(front + (Literals(p.top) + back))
  {
    RewriteMovesParts(sql);
    RewriteMovesTokens(sql);
    var p := PartsOf(sql);
    var none: seq<V> := [];
    hide PartsOf, Rewrites, Render, Tokens, Bind;
    TextBindsNothing<V>(p.clause);
    TextBindsNothing<V>(p.top);
    BindConcat(Tokens(p.back), Tokens(p.clause), ys, none);
    BindConcat(Tokens(p.front), Tokens(p.back) + Tokens(p.clause), xs, ys + none);
    BindConcat(Tokens(p.top), Tokens(p.back), none, ys);
    BindConcat(Tokens(p.front), Tokens(p.top) + Tokens(p.back), xs, none + ys);
    assert ys + none == ys && none + ys == ys;
  }

  lemma PlaceholdersOfParts(sql: string)
    requires Rewrites(sql)
    ensures var p := PartsOf(sql);
      var n := Placeholders(Tokens(p.front)) + Placeholders(Tokens(p.back));
      Placeholders(Tokens(sql)) == n && Placeholders(Tokens(Render(Tsql, sql))) == n
  {
    hide PartsOf, Rewrites, Render, Placeholders, Tokens;
    var p := PartsOf(sql);
    assert '?' !in p.clause && '?' !in p.top by { RewriteMovesParts(sql); }
    RewriteMovesTokens(sql);
    TextHasNoPlaceholders(p.clause);
    TextHasNoPlaceholders(p.top);
    PlaceholdersConcat(Tokens(p.back), Tokens(p.clause));
    PlaceholdersConcat(Tokens(p.front), Tokens(p.back) + Tokens(p.clause));
    PlaceholdersConcat(Tokens(p.top), Tokens(p.back));
    PlaceholdersConcat(Tokens(p.front), Tokens(p.top) + Tokens(p.back));
  }

  /** The rewrite keeps the number of placeholders, in both dialects, for every statement. */
  lemma RenderKeepsMarks(dialect: Dialect, sql: string)
    ensures Placeholders(Tokens(Render(dialect, sql))) == Placeholders(Tokens(sql))
  {
    RenderIs(sql);
    if dialect == Tsql && Rewrites(sql) {
      PlaceholdersOfParts(sql);
    }
  }

  lemma TextHasNoPlaceholders(s: string)
    requires '?' !in s
    ensures Placeholders(Tokens(s)) == 0
  {
    TextBindsNothing<string>(s);
    BindIff<string>(Tokens(s), []);
  }

  /**
   * Dialect, then placeholder style, then the driver: the statement binds exactly when the canonical
   * one does. Unless it is rewritten it binds to the same thing; a rewrite splits the parameters where
   * the head ends, and each placeholder before and after that point gets the parameter it had.
   */
  lemma SessionBindsTheSame<V>(dialect: Dialect, style: Style, sql: string, params: seq<V>)
    ensures var decoded := DriverReads(style, ParamStyle.Render(style, Render(dialect, sql)));
      && decoded.Some?
      && (Bind(decoded.value, params).Some? <==> Bind(Tokens(sql), params).Some?)
      && (Bind(Tokens(sql), params).Some? ==>
            if dialect == Tsql && Rewrites(sql) then BindsInParts(sql, decoded.value, params)
            else Bind(decoded.value, params) == Bind(Tokens(sql), params))
  {
    RenderIs(sql);
    RenderKeepsMarks(dialect, sql);
    assert Render(Ansi, sql) == sql;
    hide Render, Rewrites, Bind;
    DriverReadsCanonical(style, Render(dialect, sql));
    BindIff(Tokens(sql), params);
    BindIff(Tokens(Render(dialect, sql)), params);
    if dialect == Tsql && Rewrites(sql) && Bind(Tokens(sql), params).Some? {
      RewriteBindsInParts(sql, params);
    }
  }

  /** The parameters split in two, one part for each side of the head's end, in both statements. */
  ghost predicate BindsInParts<V>(sql: string, tokens: seq<Token>, params: seq<V>)
    requires Rewrites(sql)
  {
    var p := PartsOf(sql);
    var n := Placeholders(Tokens(p.front));
    n <= |params| &&
    var front, back := Bind(Tokens(p.front), params[..n]), Bind(Tokens(p.back), params[n..]);
    && front.Some? && back.Some?
    && Bind(Tokens(sql), params) == Some(front.value + (back.value + Literals(p.clause)))
    && Bind(tokens, params) == Some(front.value + (Literals(p.top) + back.value))
  }

  lemma RewriteBindsInParts<V>(sql: string, params: seq<V>)
    requires Rewrites(sql) && Bind(Tokens(sql), params).Some?
    ensures BindsInParts(sql, Tokens(Render(Tsql, sql)), params)
  {
    hide Render, Rewrites, Bind, PartsOf, Tokens, Placeholders;
    var p := PartsOf(sql);
    BindIff(Tokens(sql), params);
    PlaceholdersOfParts(sql);
    var n := Placeholders(Tokens(p.front));
    BindIff(Tokens(p.front), params[..n]);
    BindIff(Tokens(p.back), params[n..]);
    assert params == params[..n] + params[n..];
    RewriteBindsTheSame(sql, params[..n], params[n..]);
  }

  // ----- Undoing the rewrite -----

  datatype TopStatement = TopStatement(body: string, digits: string)

  /** Read `TOP n ` after the select head: what is left without it, and the digits. */
  function ReadTop(rendered: string): Option<TopStatement> {
    match HeadEnd(rendered)
    case None => None
    case Some(end) =>
      var rest := rendered[end..];
      if |rest| < 4 || rest[..4] != "TOP " then None else
      var n := Span(rest[4..], IsDigit);
      if n == 0 || 4 + n >= |rest| || rest[4 + n] != ' ' then None
      else Some(TopStatement(rendered[..end] + rest[4 + n + 1..], rest[4..4 + n]))
  }

  lemma DistinctOfPrefix(t: string, rest: string)
    requires rest != [] && !IsSpace(rest[0]) && Upper(rest[0]) != 'D'
    ensures DistinctEnd(t[..DistinctEnd(t)] + rest) == DistinctEnd(t)
  {
    hide Span;
    var end := DistinctEnd(t);
    if end == 0 {
      assert t[..0] + rest == rest;
    } else {
      var spaces := t[8..][..end - 8];
      var r := t[..end] + rest;
      assert forall i :: 0 <= i < 8 ==> r[i] == t[i];
      assert r[8..] == spaces + rest;
      SpanOf(spaces, rest, IsSpace);
    }
  }

  lemma StartsAlike(s: string, r: string, w: string)
    requires StartsWith(s, w) && |r| >= |w| && r[..|w|] == s[..|w|]
    ensures StartsWith(r, w)
  {
    assert forall i :: 0 <= i < |w| ==> r[..|w|][i] == r[i] && s[..|w|][i] == s[i];
  }

  /** Cutting a statement after its first `6 + n + k` characters and continuing with `rest`. */
  lemma CutAndContinue(sql: string, n: nat, k: nat, rest: string)
    requires 6 + n + k <= |sql|
    ensures var (r, tail) := (sql[..6 + n + k] + rest, sql[6 + n..][..k] + rest);
      && r[..6] == sql[..6] && r[6..] == sql[6..][..n] + tail && r[6 + n..] == tail
  {
  }

  lemma HeadEndIs(r: string, spaces: string, tail: string)
    requires StartsWith(r, "SELECT") && r[6..] == spaces + tail
    requires spaces != [] && AllSatisfy(spaces, IsSpace) && (tail == [] || !IsSpace(tail[0]))
    ensures HeadEnd(r) == Some(6 + |spaces| + DistinctEnd(tail))
  {
    hide Span, DistinctEnd, IsSpace, AllSatisfy;
    SpanOf(spaces, tail, IsSpace);
    assert r[6 + |spaces|..] == r[6..][|spaces|..];
  }

  /** What a head that is found consists of. */
  lemma HeadShape(sql: string)
    requires HeadEnd(sql).Some?
    ensures StartsWith(sql, "SELECT") && |sql| >= 6
    ensures var n := Span(sql[6..], IsSpace);
      && n > 0 && 6 + n <= |sql| && AllSatisfy(sql[6..][..n], IsSpace)
      && HeadEnd(sql) == Some(6 + n + DistinctEnd(sql[6 + n..])) && HeadEnd(sql).value <= |sql|
  {
    hide Span, DistinctEnd, IsSpace;
  }

  /** What follows the white space of the head, cut after `DISTINCT` or at once, does not start with a space. */
  lemma RestAfterSpace(t: string, rest: string)
    requires rest != [] && !IsSpace(rest[0])
    ensures var tail := t[..DistinctEnd(t)] + rest; tail != [] && !IsSpace(tail[0])
  {
    DistinctStart(t);
    hide DistinctEnd, IsSpace;
  }

  /** The head is found again when something other than a space or a `D` follows it. */
  lemma HeadOfPrefix(sql: string, rest: string)
    requires HeadEnd(sql).Some?
    requires rest != [] && !IsSpace(rest[0]) && Upper(rest[0]) != 'D'
    ensures HeadEnd(sql[..HeadEnd(sql).value] + rest) == HeadEnd(sql)
  {
    hide Span, DistinctEnd, StartsWith, IsSpace, Upper, HeadEnd, AllSatisfy;
    HeadShape(sql);
    var n := Span(sql[6..], IsSpace);
    var t := sql[6 + n..];
    var k := DistinctEnd(t);
    CutAndContinue(sql, n, k, rest);
    var r, spaces, tail := sql[..6 + n + k] + rest, sql[6..][..n], t[..k] + rest;
    StartsAlike(sql, r, "SELECT");
    RestAfterSpace(t, rest);
    DistinctOfPrefix(t, rest);
    HeadEndIs(r, spaces, tail);
  }

  lemma DistinctStart(t: string)
    ensures DistinctEnd(t) > 0 ==> !IsSpace(t[0])
  {
  }

  lemma LimitDigits(sql: string)
    requires SearchLimit(sql, 0).Some?
    ensures SearchLimit(sql, 0).value.digits != [] && AllSatisfy(SearchLimit(sql, 0).value.digits, IsDigit)
  {
    SearchIsLeftmost(sql, 0);
    var m := SearchLimit(sql, 0).value;
    hide SearchLimit, MatchLimit;
    MatchIsClause(sql[m.start..]);
    var a, word, b, c :| IsLimitClause(sql[m.start..], a, word, b, m.digits, c);
  }

  lemma ReadTopOf(head: string, digits: string, back: string)
    requires HeadEnd(head + ("TOP " + (digits + (" " + back)))) == Some(|head|)
    requires digits != [] && AllSatisfy(digits, IsDigit)
    ensures ReadTop(head + ("TOP " + (digits + (" " + back)))) == Some(TopStatement(head + back, digits))
  {
    hide HeadEnd, Span;
    var tail := " " + back;
    var rest := "TOP " + (digits + tail);
    var r := head + rest;
    assert r[..|head|] == head && r[|head|..] == rest;
    assert rest[..4] == "TOP " && rest[4..] == digits + tail;
    SpanOf(digits, tail, IsDigit);
    assert rest[4 + |digits|] == ' ' && rest[4 + |digits| + 1..] == back;
    assert rest[4..4 + |digits|] == digits;
  }

  /** When the head ends before the clause, the rewrite is undone: body and row count come back. */
  lemma RewriteCanBeUndone(sql: string)
    requires Rewrites(sql) && HeadEnd(sql).value <= SearchLimit(sql, 0).value.start
    ensures ReadTop(Render(Tsql, sql)) ==
      Some(TopStatement(sql[..SearchLimit(sql, 0).value.start], SearchLimit(sql, 0).value.digits))
  {
    hide SearchLimit, HeadEnd, Render, ReadTop;
    RenderIs(sql);
    LimitDigits(sql);
    var limit, end := SearchLimit(sql, 0).value, HeadEnd(sql).value;
    var body := sql[..limit.start];
    var rest := "TOP " + (limit.digits + (" " + body[end..]));
    assert rest[0] == 'T';
    HeadOfPrefix(sql, rest);
    assert body[..end] == sql[..end] && body[..end] + body[end..] == body;
    ReadTopOf(sql[..end], limit.digits, body[end..]);
  }

  /** More leading whitespace changes nothing, so the leftmost match starts at the first space of its run. */
  lemma MoreSpaceMatches(a: string, t: string)
    requires AllSatisfy(a, IsSpace) && MatchLimit(t).Some?
    ensures MatchLimit(a + t) == MatchLimit(t)
  {
    hide Span, MatchCount;
    var n := Span(t, IsSpace);
    assert a + t == (a + t[..n]) + t[n..];
    assert Upper(t[n..][0]) == "LIMIT"[0];
    SpanOf(a + t[..n], t[n..], IsSpace);
  }

  lemma MatchStartsWithSpace(t: string)
    requires MatchLimit(t).Some?
    ensures t != [] && IsSpace(t[0])
  {
  }

  lemma SpaceExtendsMatch(sql: string, k: nat)
    requires k < |sql|
    ensures IsSpace(sql[k]) && MatchLimit(sql[k + 1..]).Some? ==> MatchLimit(sql[k..]).Some?
  {
    hide MatchLimit;
    if IsSpace(sql[k]) && MatchLimit(sql[k + 1..]).Some? {
      MoreSpaceMatches([sql[k]], sql[k + 1..]);
      assert sql[k..] == [sql[k]] + sql[k + 1..];
    }
  }

  /** The clause starts at the first character of a run of whitespace. */
  lemma LimitStartsRun(sql: string)
    requires SearchLimit(sql, 0).Some?
    ensures var start := SearchLimit(sql, 0).value.start;
      start < |sql| && IsSpace(sql[start]) && (start > 0 ==> !IsSpace(sql[start - 1]))
  {
    hide SearchLimit, MatchLimit, IsSpace;
    SearchIsLeftmost(sql, 0);
    var start := SearchLimit(sql, 0).value.start;
    MatchStartsWithSpace(sql[start..]);
    if start > 0 {
      SpaceExtendsMatch(sql, start - 1);
    }
  }

  /** When the head runs into the clause, the clause starts at one of the head's two whitespace runs. */
  lemma ClauseInsideHead(sql: string)
    requires Rewrites(sql) && HeadEnd(sql).value > SearchLimit(sql, 0).value.start
    ensures var n := Span(sql[6..], IsSpace);
      SearchLimit(sql, 0).value.start == 6
      || (DistinctEnd(sql[6 + n..]) > 0 && SearchLimit(sql, 0).value.start == 6 + n + 8)
  {
    hide SearchLimit, Span, StartsWith, IsSpace, DistinctEnd;
    LimitStartsRun(sql);
    HeadLetters(sql);
  }

  lemma WordHasNoSpace(s: string, w: string)
    requires StartsWith(s, w) && forall i :: 0 <= i < |w| ==> 'A' <= w[i] <= 'Z'
    ensures forall i :: 0 <= i < |w| ==> !IsSpace(s[i])
  {
  }

  lemma DistinctLetters(t: string)
    requires DistinctEnd(t) > 0
    ensures DistinctEnd(t) > 8 && forall i :: 0 <= i < 8 ==> !IsSpace(t[i])
    ensures forall i :: 8 <= i < DistinctEnd(t) ==> IsSpace(t[i])
  {
    hide StartsWith, IsSpace;
    WordHasNoSpace(t, "DISTINCT");
    var m := Span(t[8..], IsSpace);
    assert forall i :: 8 <= i < 8 + m ==> t[i] == t[8..][i - 8];
  }

  /** Which characters of the select head are letters, and which are spaces. */
  lemma HeadLetters(sql: string)
    requires HeadEnd(sql).Some?
    ensures forall i :: 0 <= i < 6 ==> !IsSpace(sql[i])
    ensures var n := Span(sql[6..], IsSpace);
      && (forall i :: 6 <= i < 6 + n ==> IsSpace(sql[i]))
      && (DistinctEnd(sql[6 + n..]) > 0 ==>
            && (forall i :: 6 + n <= i < 6 + n + 8 ==> !IsSpace(sql[i]))
            && (forall i :: 6 + n + 8 <= i < HeadEnd(sql).value ==> IsSpace(sql[i])))
  {
    hide StartsWith, IsSpace, DistinctEnd, Span;
    WordHasNoSpace(sql, "SELECT");
    var n := Span(sql[6..], IsSpace);
    assert forall i :: 6 <= i < 6 + n ==> sql[i] == sql[6..][i - 6];
    var t := sql[6 + n..];
    if DistinctEnd(t) > 0 {
      DistinctLetters(t);
      assert forall i :: 6 + n <= i < |sql| ==> sql[i] == t[i - 6 - n];
    }
  }

  lemma CutAfterSelect(sql: string, rest: string)
    requires HeadEnd(sql).Some? && rest != [] && rest[0] == 'T'
    ensures HeadEnd(sql[..6] + rest).None?
  {
  }

  lemma CutAfterDistinct(t: string, rest: string)
    requires DistinctEnd(t) > 0 && rest != [] && rest[0] == 'T'
    ensures |t| >= 8
    ensures DistinctEnd(t[..8] + rest) == 0 && (t[..8] + rest)[0] == t[0] && Upper(t[0]) == 'D'
  {
  }

  lemma CutHeadEnds(sql: string, rest: string)
    requires HeadEnd(sql).Some? && rest != [] && rest[0] == 'T'
    requires DistinctEnd(sql[6 + Span(sql[6..], IsSpace)..]) > 0
    ensures var n := Span(sql[6..], IsSpace);
      HeadEnd(sql[..6 + n + 8] + rest) == Some(6 + n) && Upper((sql[..6 + n + 8] + rest)[6 + n]) == 'D'
  {
    hide Span, DistinctEnd;
    var n := Span(sql[6..], IsSpace);
    var t := sql[6 + n..];
    CutAfterDistinct(t, rest);
    CutAndContinue(sql, n, 8, rest);
    StartsAlike(sql, sql[..6 + n + 8] + rest, "SELECT");
    HeadEndIs(sql[..6 + n + 8] + rest, sql[6..][..n], t[..8] + rest);
  }

  lemma NoTopThere(r: string, end: nat)
    requires HeadEnd(r) == Some(end) && end < |r| && Upper(r[end]) == 'D'
    ensures ReadTop(r).None?
  {
    hide HeadEnd, Span;
    assert r[end..][0] == r[end];
  }

  lemma NoHeadNoTop(r: string)
    requires HeadEnd(r).None?
    ensures ReadTop(r).None?
  {
  }

  lemma TopPastEnd(body: string, end: nat, digits: string)
    requires end > |body|
    ensures WithTop(body, end, digits) == body + ("TOP " + (digits + (" " + [])))
    ensures ("TOP " + (digits + (" " + [])))[0] == 'T'
  {
  }

  /** A head that runs into the clause is glued to the `TOP`, and cannot be read back. */
  lemma GluedRewriteIsLost(sql: string)
    requires Rewrites(sql) && HeadEnd(sql).value > SearchLimit(sql, 0).value.start
    ensures ReadTop(Render(Tsql, sql)).None?
  {
    hide SearchLimit, HeadEnd, ReadTop, Render, WithTop, Span, DistinctEnd, StartsWith;
    RenderIs(sql);
    ClauseInsideHead(sql);
    var limit, n := SearchLimit(sql, 0).value, Span(sql[6..], IsSpace);
    var rest := "TOP " + (limit.digits + (" " + []));
    TopPastEnd(sql[..limit.start], HeadEnd(sql).value, limit.digits);
    assert |sql| >= 6 by { HeadShape(sql); }
    if limit.start == 6 {
      CutAfterSelect(sql, rest);
      NoHeadNoTop(sql[..6] + rest);
    } else {
      CutHeadEnds(sql, rest);
      NoTopThere(sql[..6 + n + 8] + rest, 6 + n);
    }
  }

  /** The rewrite can be read back exactly when the select head ends before the limit clause. */
  lemma RewriteUndoneIff(sql: string)
    requires Rewrites(sql)
    ensures ReadTop(Render(Tsql, sql)).Some? <==> HeadEnd(sql).value <= SearchLimit(sql, 0).value.start
  {
    if HeadEnd(sql).value <= SearchLimit(sql, 0).value.start {
      RewriteCanBeUndone(sql);
    } else {
      GluedRewriteIsLost(sql);
    }
  }

  // ----- The failing case, concretely -----

  lemma ExampleHead()
    ensures HeadEnd("SELECT LIMIT 5") == Some(7)
  {
    var sql := "SELECT LIMIT 5";
    assert sql[6..] == " " + "LIMIT 5";
    assert Upper("LIMIT 5"[0]) != "DISTINCT"[0];
    SpanOf(" ", "LIMIT 5", IsSpace);
    assert sql[7..] == "LIMIT 5";
  }

  lemma ExampleClause()
    ensures MatchLimit(" LIMIT 5") == Some("5")
  {
    assert " LIMIT 5" == " " + ("LIMIT" + (" " + ("5" + "")));
    ClauseIsMatched(" LIMIT 5", " ", "LIMIT", " ", "5", "");
  }

  lemma SearchFinds(sql: string, n: nat)
    requires n <= |sql| && MatchLimit(sql[n..]).Some?
    ensures SearchLimit(sql, 0).Some? && SearchLimit(sql, 0).value.start <= n
    ensures MatchLimit(sql[SearchLimit(sql, 0).value.start..]) == Some(SearchLimit(sql, 0).value.digits)
  {
    hide MatchLimit, SearchLimit;
    SearchIsLeftmost(sql, 0);
  }

  lemma ClauseAfterLetters(sql: string, n: nat)
    requires n <= |sql| && (forall i :: 0 <= i < n ==> !IsSpace(sql[i])) && MatchLimit(sql[n..]).Some?
    ensures SearchLimit(sql, 0) == Some(LimitMatch(n, MatchLimit(sql[n..]).value))
  {
    hide MatchLimit, SearchLimit, IsSpace;
    SearchFinds(sql, n);
    LimitStartsRun(sql);
  }

  /** A head that swallows the space before `LIMIT` glues `TOP` to `SELECT`. */
  lemma GluedExample()
    ensures Render(Tsql, "SELECT LIMIT 5") == "SELECTTOP 5 "
  {
    ExampleHead();
    ExampleClause();
    hide HeadEnd, MatchLimit;
    var sql := "SELECT LIMIT 5";
    assert sql[6..] == " LIMIT 5";
    ClauseAfterLetters(sql, 6);
    assert sql[..6] == "SELECT";
  }
}
