/**
 * The search-condition compiler: `buildSQL` folds an ordered list of search
 * conditions into the text of one SQLite query, kept as the sequence of
 * fragments it is concatenated from, and the positional parameters bound to
 * its `?` placeholders.
 */
module SqlBuilder {
  import opened Strings
  import opened Diary
  import opened JsValues

  datatype Field = Date | Name | Notes | AttributeField

  datatype Operator = Equals | Contains | Before | After | Between | In

  datatype Logic = And | Or

  /**
   * One search condition. `negate` and `logic` are the extra keys the
   * condition editor writes into the object (an absent `negate` reads as
   * `false`, an absent `logic` as `None`); the compiler never reads them.
   */
  datatype SearchCondition = SearchCondition(
    id: string,
    field: Field,
    operator: Operator,
    value: JsValue,
    negate: bool,
    logic: Option<Logic>)

  /**
   * The pieces the query text is concatenated from: the fixed base query and
   * the five clause shapes (`AttributeIn(n)` is the membership sub-query for a
   * list of `n` attributes). `Render` gives each one's exact text.
   */
  datatype Fragment =
    | Base
    | NameLike
    | NotesLike
    | DateEquals
    | DateBetween
    | AttributeIn(count: nat)

  /** The compiled query: its fragments (the base first) and the parameters in binding order. */
  datatype Query = Query(sql: seq<Fragment>, params: seq<JsValue>)

  /** What one condition contributes: at most one fragment and its parameters. */
  datatype Clause = Clause(sql: seq<Fragment>, params: seq<JsValue>)

  // ---------------------------------------------------------------------
  // The query text. Pieces are kept short and joined, so that the absence of
  // `?` in the fixed text is visible piece by piece.
  // ---------------------------------------------------------------------

  function Spaces(n: nat): (r: string)
    ensures |r| == n && forall i :: 0 <= i < n ==> r[i] == ' '
  {
    if n == 0 then "" else Spaces(n - 1) + " "
  }

  /** A line break, `indent` spaces, then `text`. */
  function Line(indent: nat, text: string): (r: string)
    ensures '?' in r <==> '?' in text
  {
    "\n" + Spaces(indent) + text
  }

  const BaseText: string :=
    Line(4, "SELECT DISTINCT d.*")
    + Line(4, "FROM DiaryEntry d")
    + Line(4, "LEFT JOIN DiaryEntryAttribute dea") + " ON dea.DiaryEntryId = d.Id"
    + Line(4, "LEFT JOIN Attribute a") + " ON a.Id = dea.AttributeId"
    + Line(4, "WHERE 1 = 1")
    + Line(2, "")

  /** `xs.map(() => "?").join(",")` for a list of `n` elements. */
  function Placeholders(n: nat): (r: string)
    ensures |r| == if n == 0 then 0 else 2 * n - 1
    ensures forall k :: 0 <= k < |r| ==> r[k] == if k % 2 == 0 then '?' else ','
    ensures CountChar(r, '?') == n
  {
    if n == 0 then ""
    else if n == 1 then "?"
    else
      var p := Placeholders(n - 1);
      CountCharAppend(p, ",?", '?');
      AppendHole(p, n - 1);
      p + ",?"
  }

  /** `?` at the even positions and `,` at the odd ones, for `m` placeholders. */
  predicate Alternates(p: string, m: nat) {
    && |p| == 2 * m - 1
    && forall k :: 0 <= k < |p| ==> p[k] == if k % 2 == 0 then '?' else ','
  }

  lemma AppendHole(p: string, m: nat)
    requires m >= 1 && Alternates(p, m)
    ensures Alternates(p + ",?", m + 1)
  {
    var q := p + ",?";
    forall k | 0 <= k < |q|
      ensures q[k] == if k % 2 == 0 then '?' else ','
    {
      if k == |p| {
        assert k == 2 * (m - 1) + 1;
      } else if k == |p| + 1 {
        assert k == 2 * m;
      }
    }
  }

  const AttributeOpen: string :=
    Line(12, "AND d.Id IN (")
    + Line(16, "SELECT DiaryEntryId")
    + Line(16, "FROM DiaryEntryAttribute")
    + Line(16, "WHERE AttributeId IN (")

  const AttributeClose: string := ")" + Line(12, ")") + Line(12, "")

  /** ` AND <test>?`: a one-line condition ending in its placeholder. */
  function Condition(test: string): string {
    " AND " + test + "?"
  }

  /** The exact text each fragment contributes to the query. */
  function Render(f: Fragment): string {
    match f
    case Base => BaseText
    case NameLike => Condition("d.Name LIKE ")
    case NotesLike => Condition("d.Notes LIKE ")
    case DateEquals => Condition("d.Date = ")
    case DateBetween => Condition("d.Date BETWEEN ") + Condition("")
    case AttributeIn(n) => AttributeOpen + Placeholders(n) + AttributeClose
  }

  /** The query text the fragments spell out. */
  function Text(sql: seq<Fragment>): string
    decreases |sql|
  {
    if |sql| == 0 then "" else Text(sql[..|sql| - 1]) + Render(sql[|sql| - 1])
  }

  /** Spaces and line breaks only. */
  predicate IsLayout(s: string) {
    forall i :: 0 <= i < |s| ==> s[i] == ' ' || s[i] == '\n'
  }

  /** A text that, after its layout, begins with the keyword `AND`. */
  predicate IsConjunct(f: string) {
    exists k :: 0 <= k <= |f| && IsLayout(f[..k]) && StartsWithAnd(f[k..])
  }

  /** The keyword `AND` and a space. */
  predicate StartsWithAnd(s: string) {
    |s| >= 4 && s[0] == 'A' && s[1] == 'N' && s[2] == 'D' && s[3] == ' '
  }

  // ---------------------------------------------------------------------
  // Facts about the fixed text.
  // ---------------------------------------------------------------------

  /** No character of `s` is a placeholder. */
  predicate NoPlaceholder(s: string) {
    forall i :: 0 <= i < |s| ==> s[i] != '?'
  }

  lemma BaseHasNoPlaceholder()
    ensures '?' !in BaseText
  {
    assert NoPlaceholder("SELECT DISTINCT d.*") && NoPlaceholder("FROM DiaryEntry d");
    assert NoPlaceholder("LEFT JOIN DiaryEntryAttribute dea") && NoPlaceholder(" ON dea.DiaryEntryId = d.Id");
    assert NoPlaceholder("LEFT JOIN Attribute a") && NoPlaceholder(" ON a.Id = dea.AttributeId");
    assert NoPlaceholder("WHERE 1 = 1");
  }

  lemma AttributeFrameHasNoPlaceholder()
    ensures '?' !in AttributeOpen && '?' !in AttributeClose
  {
    assert NoPlaceholder("AND d.Id IN (") && NoPlaceholder("SELECT DiaryEntryId");
    assert NoPlaceholder("FROM DiaryEntryAttribute") && NoPlaceholder("WHERE AttributeId IN (");
  }

  /** A fixed text followed by one placeholder holds one placeholder. */
  lemma OnePlaceholderAfter(text: string)
    requires '?' !in text
    ensures CountChar(text + "?", '?') == 1
  {
    assert CountChar("?", '?') == CountChar("", '?') + 1;
    CountCharAppend(text, "?", '?');
  }

  /** How many placeholders a fragment holds. */
  function Arity(f: Fragment): nat {
    match f
    case Base => 0
    case NameLike => 1
    case NotesLike => 1
    case DateEquals => 1
    case DateBetween => 2
    case AttributeIn(n) => n
  }

  lemma RenderPlaceholders(f: Fragment)
    ensures CountChar(Render(f), '?') == Arity(f)
  {
    match f
    case Base => BaseHasNoPlaceholder();
    case NameLike => ClausePlaceholder("d.Name LIKE ");
    case NotesLike => ClausePlaceholder("d.Notes LIKE ");
    case DateEquals => ClausePlaceholder("d.Date = ");
    case DateBetween =>
      ClausePlaceholder("d.Date BETWEEN ");
      ClausePlaceholder("");
      CountCharAppend(Condition("d.Date BETWEEN "), Condition(""), '?');
    case AttributeIn(n) => AttributePlaceholders(n);
  }

  /** A clause whose test has no placeholder holds exactly its final one. */
  lemma ClausePlaceholder(test: string)
    requires NoPlaceholder(test)
    ensures CountChar(Condition(test), '?') == 1
  {
    assert NoPlaceholder(" AND ");
    OnePlaceholderAfter(" AND " + test);
  }

  lemma AttributePlaceholders(n: nat)
    ensures CountChar(Render(AttributeIn(n)), '?') == n
  {
    AttributeFrameHasNoPlaceholder();
    CountCharAppend(AttributeOpen, Placeholders(n), '?');
    CountCharAppend(AttributeOpen + Placeholders(n), AttributeClose, '?');
  }

  /** Layout followed by `AND ` is a conjunct. */
  lemma ConjunctAt(f: string, k: nat)
    requires k <= |f| && IsLayout(f[..k]) && StartsWithAnd(f[k..])
    ensures IsConjunct(f)
  {
  }

  /** Text appended after a conjunct leaves it a conjunct. */
  lemma ConjunctPrefix(a: string, b: string)
    requires IsConjunct(a)
    ensures IsConjunct(a + b)
  {
    var k :| 0 <= k <= |a| && IsLayout(a[..k]) && StartsWithAnd(a[k..]);
    assert (a + b)[..k] == a[..k];
    ConjunctAt(a + b, k);
  }

  /** A clause written on a line of its own starting with `AND ` is a conjunct. */
  lemma LineConjunct(indent: nat, text: string)
    requires StartsWithAnd(text)
    ensures IsConjunct(Line(indent, text))
  {
    var f := Line(indent, text);
    assert f[..indent + 1] == "\n" + Spaces(indent);
    assert f[indent + 1..] == text;
    ConjunctAt(f, indent + 1);
  }

  lemma ClauseRendersConjunct(f: Fragment)
    requires f != Base
    ensures IsConjunct(Render(f))
  {
    match f
    case AttributeIn(n) =>
      AttributeConjunct(n);
    case NameLike => ClauseConjunct("d.Name LIKE ");
    case NotesLike => ClauseConjunct("d.Notes LIKE ");
    case DateEquals => ClauseConjunct("d.Date = ");
    case DateBetween =>
      ClauseConjunct("d.Date BETWEEN ");
      ConjunctPrefix(Condition("d.Date BETWEEN "), Condition(""));
  }

  /** Every clause opens with one space and the keyword `AND`. */
  lemma ClauseConjunct(test: string)
    ensures IsConjunct(Condition(test))
  {
    var t := Condition(test);
    assert IsLayout(t[..1]);
    ConjunctAt(t, 1);
  }

  lemma AttributeConjunct(n: nat)
    ensures IsConjunct(Render(AttributeIn(n)))
  {
    var head := Line(12, "AND d.Id IN (");
    LineConjunct(12, "AND d.Id IN (");
    ConjunctPrefix(head, Line(16, "SELECT DiaryEntryId"));
    ConjunctPrefix(head + Line(16, "SELECT DiaryEntryId"), Line(16, "FROM DiaryEntryAttribute"));
    ConjunctPrefix(head + Line(16, "SELECT DiaryEntryId") + Line(16, "FROM DiaryEntryAttribute"), Line(16, "WHERE AttributeId IN ("));
    ConjunctPrefix(AttributeOpen, Placeholders(n));
    ConjunctPrefix(AttributeOpen + Placeholders(n), AttributeClose);
  }

  // ---------------------------------------------------------------------
  // The compiler.
  // ---------------------------------------------------------------------

  /** The ids of a list of attributes, in list order, as bound parameters. */
  function AttributeIds(xs: seq<Attribute>): (r: seq<JsValue>)
    ensures |r| == |xs|
    ensures forall i :: 0 <= i < |xs| ==> r[i] == Num(xs[i].Id)
  {
    seq(|xs|, i requires 0 <= i < |xs| => Num(xs[i].Id))
  }

  /** `"%" + value + "%"`: the pattern a `contains` condition binds. */
  function LikePattern(v: JsValue): string {
    "%" + Interpolate(v) + "%"
  }

  /**
   * The conditions whose value makes the loop body throw: reading `.from` of
   * a `null`/`undefined` date range, reading `.length` of a `null`/`undefined`
   * attribute value, or calling `.map` on a non-empty string.
   */
  predicate Throws(c: SearchCondition) {
    || (c.field == Date && c.operator == Between && (c.value.Null? || c.value.Undefined?))
    || (c.field == AttributeField && (c.value.Null? || c.value.Undefined? || (c.value.Str? && |c.value.s| > 0)))
  }

  /** The sum of the fragments' placeholder counts. */
  function ArityOf(sql: seq<Fragment>): nat
    decreases |sql|
  {
    if |sql| == 0 then 0 else ArityOf(sql[..|sql| - 1]) + Arity(sql[|sql| - 1])
  }

  /** One pass of the loop body: the clause a condition appends, or the `TypeError` its value makes the body throw. */
  function ClauseOf(c: SearchCondition): (r: Result<Clause>)
    ensures r.TypeError? <==> Throws(c)
    ensures r.Ok? ==> |r.value.sql| <= 1 && Base !in r.value.sql
    ensures r.Ok? ==> |r.value.params| == ArityOf(r.value.sql)
  {
    match c.field
    case Name =>
      if c.operator == Contains then Ok(Clause([NameLike], [Str(LikePattern(c.value))]))
      else Ok(Clause([], []))
    case Notes =>
      if c.operator == Contains then Ok(Clause([NotesLike], [Str(LikePattern(c.value))]))
      else Ok(Clause([], []))
    case Date =>
      if c.operator == Equals then Ok(Clause([DateEquals], [c.value]))
      else if c.operator == Between then
        match (From(c.value), To(c.value))
        case (Ok(f), Ok(t)) => Ok(Clause([DateBetween], [f, t]))
        case _ => TypeError
      else Ok(Clause([], []))
    case AttributeField =>
      match Length(c.value)
      case TypeError => TypeError
      case Ok(len) =>
        if len.Num? && len.n > 0 then
          match c.value
          case AttrList(xs) =>
            assert [AttributeIn(|xs|)][..0] == [];
            Ok(Clause([AttributeIn(|xs|)], AttributeIds(xs)))
          case _ => TypeError
        else Ok(Clause([], []))
  }

  /**
   * The shape `buildSQL` keeps after every condition: the base query comes
   * first and nowhere else, and the fragments hold exactly one placeholder
   * per bound parameter (`TextCount` carries this over to the text).
   */
  predicate WellFormedQuery(q: Query) {
    && |q.sql| >= 1
    && q.sql[0] == Base
    && Base !in q.sql[1..]
    && ArityOf(q.sql) == |q.params|
  }

  lemma {:induction false} TextCount(sql: seq<Fragment>)
    ensures CountChar(Text(sql), '?') == ArityOf(sql)
    decreases |sql|
  {
    if |sql| > 0 {
      TextCount(sql[..|sql| - 1]);
      CountCharAppend(Text(sql[..|sql| - 1]), Render(sql[|sql| - 1]), '?');
      RenderPlaceholders(sql[|sql| - 1]);
    }
  }

  lemma {:induction false} ArityAppend(a: seq<Fragment>, b: seq<Fragment>)
    ensures ArityOf(a + b) == ArityOf(a) + ArityOf(b)
    decreases |b|
  {
    if |b| == 0 {
      assert a + b == a;
    } else {
      assert (a + b)[..|a + b| - 1] == a + b[..|b| - 1];
      ArityAppend(a, b[..|b| - 1]);
    }
  }

  lemma ExtendKeepsShape(q: Query, cl: Clause)
    requires WellFormedQuery(q)
    requires Base !in cl.sql && |cl.params| == ArityOf(cl.sql)
    ensures WellFormedQuery(Query(q.sql + cl.sql, q.params + cl.params))
  {
    var s := q.sql + cl.sql;
    assert s[1..] == q.sql[1..] + cl.sql;
    ArityAppend(q.sql, cl.sql);
  }

  lemma BaseQueryShape()
    ensures WellFormedQuery(Query([Base], []))
  {
    assert [Base][..0] == [];
  }

  /**
   * `buildSQL`: start from the base query and append, condition by condition
   * in list order, what each one contributes. A condition whose value makes
   * the loop body throw makes the whole call throw.
   */
  function BuildSql(conds: seq<SearchCondition>): (r: Result<Query>)
    ensures r.Ok? ==> |r.value.sql| <= |conds| + 1
    ensures r.Ok? ==> WellFormedQuery(r.value)
    decreases |conds|
  {
    if |conds| == 0 then
      BaseQueryShape();
      Ok(Query([Base], []))
    else
      match BuildSql(conds[..|conds| - 1])
      case TypeError => TypeError
      case Ok(q) =>
        match ClauseOf(conds[|conds| - 1])
        case TypeError => TypeError
        case Ok(cl) =>
          ExtendKeepsShape(q, cl);
          Ok(Query(q.sql + cl.sql, q.params + cl.params))
  }

  // ---------------------------------------------------------------------
  // Properties of the compiler.
  // ---------------------------------------------------------------------

  /** `buildSQL` returns normally exactly when no condition's value makes the loop body throw. */
  lemma {:induction false} BuildSqlThrowsIff(conds: seq<SearchCondition>)
    ensures BuildSql(conds).Ok? <==> forall i :: 0 <= i < |conds| ==> !Throws(conds[i])
    decreases |conds|
  {
    if |conds| > 0 {
      var front := conds[..|conds| - 1];
      var last := conds[|conds| - 1];
      assert BuildSql(conds).Ok? <==> BuildSql(front).Ok? && !Throws(last) by {
        assert ClauseOf(last).Ok? <==> !Throws(last);
      }
      assert (forall i :: 0 <= i < |conds| ==> !Throws(conds[i]))
             <==> (forall i :: 0 <= i < |front| ==> !Throws(front[i])) && !Throws(last) by {
        assert forall i :: 0 <= i < |front| ==> front[i] == conds[i];
      }
      BuildSqlThrowsIff(front);
    }
  }

  /** With no conditions the query is the base query alone, with no placeholder and nothing bound. */
  lemma BuildSqlEmpty()
    ensures BuildSql([]) == Ok(Query([Base], []))
    ensures Text([Base]) == BaseText && '?' !in BaseText
  {
    assert [Base][..0] == [];
    BaseHasNoPlaceholder();
  }

  /** A name or notes `contains` condition appends one `LIKE ?` and binds `%value%`. */
  lemma ContainsClause(c: SearchCondition)
    requires c.field == Name || c.field == Notes
    requires c.operator == Contains
    ensures ClauseOf(c).Ok? && |ClauseOf(c).value.sql| == 1
    ensures Render(ClauseOf(c).value.sql[0])
            == if c.field == Name then " AND d.Name LIKE ?" else " AND d.Notes LIKE ?"
    ensures ClauseOf(c).value.params == [Str("%" + Interpolate(c.value) + "%")]
  {
    ConditionTexts();
  }

  /** The texts the one-line conditions spell out. */
  lemma ConditionTexts()
    ensures Render(NameLike) == " AND d.Name LIKE ?"
    ensures Render(NotesLike) == " AND d.Notes LIKE ?"
    ensures Render(DateEquals) == " AND d.Date = ?"
    ensures Render(DateBetween) == " AND d.Date BETWEEN ? AND ?"
  {
    NameText();
    NotesText();
    DateEqualsText();
    DateBetweenText();
  }

  // One lemma per literal: proved together, the four sequence equalities cost
  // the solver several times what they cost apart.

  lemma NameText()
    ensures Condition("d.Name LIKE ") == " AND d.Name LIKE ?"
  {
  }

  lemma NotesText()
    ensures Condition("d.Notes LIKE ") == " AND d.Notes LIKE ?"
  {
  }

  lemma DateEqualsText()
    ensures Condition("d.Date = ") == " AND d.Date = ?"
  {
  }

  lemma DateBetweenText()
    ensures Condition("d.Date BETWEEN ") + Condition("") == " AND d.Date BETWEEN ? AND ?"
  {
    assert Condition("") == " AND ?";
  }

  /**
   * The conditions that contribute nothing: name/notes with an operator other
   * than `contains` (so `equals` on a name is ignored), date `before`/`after`
   * (and operators no date offers), and an attribute value whose length is
   * zero or that has no length at all.
   */
  lemma SkippedConditions(c: SearchCondition)
    requires || ((c.field == Name || c.field == Notes) && c.operator != Contains)
             || (c.field == Date && c.operator != Equals && c.operator != Between)
             || (c.field == AttributeField && (c.value == AttrList([]) || c.value == Str("")
                                               || c.value.Num? || c.value.Range?))
    ensures ClauseOf(c) == Ok(Clause([], []))
  {
  }

  /**
   * Date `equals` binds the value as it is; date `between` binds `from` then
   * `to`, whether or not either is set, and throws only when the value is not
   * an object at all.
   */
  lemma DateClauses(c: SearchCondition)
    requires c.field == Date
    ensures c.operator == Equals ==> ClauseOf(c) == Ok(Clause([DateEquals], [c.value]))
    ensures c.operator == Between && c.value.Range? ==>
              ClauseOf(c) == Ok(Clause([DateBetween], [c.value.from, c.value.to]))
    ensures c.operator == Between && (c.value.Null? || c.value.Undefined?) ==> ClauseOf(c) == TypeError
    ensures Render(DateEquals) == " AND d.Date = ?" && Render(DateBetween) == " AND d.Date BETWEEN ? AND ?"
  {
    ConditionTexts();
  }

  /**
   * An attribute condition over n >= 1 attributes appends an `IN` sub-query
   * with exactly n comma-separated placeholders and binds the n ids in list order.
   */
  lemma AttributeClause(c: SearchCondition, xs: seq<Attribute>)
    requires c.field == AttributeField && c.value == AttrList(xs) && |xs| >= 1
    ensures ClauseOf(c) == Ok(Clause([AttributeIn(|xs|)], AttributeIds(xs)))
    ensures Render(AttributeIn(|xs|)) == AttributeOpen + Placeholders(|xs|) + AttributeClose
    ensures CountChar(Placeholders(|xs|), '?') == |xs| && |Placeholders(|xs|)| == 2 * |xs| - 1
    ensures forall i :: 0 <= i < |xs| ==> AttributeIds(xs)[i] == Num(xs[i].Id)
  {
  }

  /** Appending a condition appends its clause: earlier fragments and parameters stay where they were. */
  lemma BuildSqlSnoc(conds: seq<SearchCondition>, c: SearchCondition)
    ensures BuildSql(conds + [c]).Ok? <==> BuildSql(conds).Ok? && ClauseOf(c).Ok?
    ensures BuildSql(conds + [c]).Ok? ==>
              && BuildSql(conds + [c]).value.sql == BuildSql(conds).value.sql + ClauseOf(c).value.sql
              && BuildSql(conds + [c]).value.params == BuildSql(conds).value.params + ClauseOf(c).value.params
  {
    assert (conds + [c])[..|conds|] == conds;
  }

  /**
   * The output only grows: the query for any prefix of the conditions is a
   * prefix of the query for all of them, in both fragments and parameters, so
   * the parameters of condition k follow those of every earlier condition.
   */
  lemma {:induction false} BuildSqlPrefix(conds: seq<SearchCondition>, k: nat)
    requires k <= |conds|
    requires BuildSql(conds).Ok?
    ensures BuildSql(conds[..k]).Ok?
    ensures BuildSql(conds[..k]).value.sql <= BuildSql(conds).value.sql
    ensures BuildSql(conds[..k]).value.params <= BuildSql(conds).value.params
    decreases |conds|
  {
    if k == |conds| {
      assert conds[..k] == conds;
    } else {
      var front := conds[..|conds| - 1];
      var last := conds[|conds| - 1];
      assert conds == front + [last];
      BuildSqlSnoc(front, last);
      BuildSqlPrefix(front, k);
      assert front[..k] == conds[..k];
      PrefixExtend(BuildSql(conds[..k]).value.sql, BuildSql(front).value.sql, ClauseOf(last).value.sql);
      PrefixExtend(BuildSql(conds[..k]).value.params, BuildSql(front).value.params, ClauseOf(last).value.params);
    }
  }

  lemma PrefixExtend<T>(a: seq<T>, b: seq<T>, c: seq<T>)
    requires a <= b
    ensures a <= b + c
  {
    assert (b + c)[..|a|] == b[..|a|];
  }

  /** The compiler never reads `negate` or `logic`: flipping them leaves the clause unchanged. */
  lemma ClauseIgnoresNegateAndLogic(c: SearchCondition, negate: bool, logic: Option<Logic>)
    ensures ClauseOf(c.(negate := negate, logic := logic)) == ClauseOf(c)
  {
  }

  /** Conditions that agree on id, field, operator and value compile to the same query. */
  lemma {:induction false} BuildSqlIgnoresNegateAndLogic(a: seq<SearchCondition>, b: seq<SearchCondition>)
    requires |a| == |b|
    requires forall i :: 0 <= i < |a| ==> a[i] == b[i].(negate := a[i].negate, logic := a[i].logic)
    ensures BuildSql(a) == BuildSql(b)
    decreases |a|
  {
    if |a| > 0 {
      var n := |a| - 1;
      assert forall i :: 0 <= i < n ==> a[..n][i] == a[i] && b[..n][i] == b[i];
      BuildSqlIgnoresNegateAndLogic(a[..n], b[..n]);
      ClauseIgnoresNegateAndLogic(b[n], a[n].negate, a[n].logic);
      assert ClauseOf(a[n]) == ClauseOf(b[n]);
    }
  }

  /**
   * On the query text itself: it starts with the base query, every later
   * fragment begins with `AND`, and the text holds exactly as many `?` as
   * there are bound parameters.
   */
  lemma CompiledText(conds: seq<SearchCondition>)
    requires BuildSql(conds).Ok?
    ensures BuildSql(conds).value.sql[0] == Base && Render(Base) <= Text(BuildSql(conds).value.sql)
    ensures forall k :: 1 <= k < |BuildSql(conds).value.sql| ==> IsConjunct(Render(BuildSql(conds).value.sql[k]))
    ensures CountChar(Text(BuildSql(conds).value.sql), '?') == |BuildSql(conds).value.params|
  {
    var sql := BuildSql(conds).value.sql;
    FirstRenderIsPrefix(sql);
    LaterFragmentsAreConjuncts(sql);
    TextCount(sql);
  }

  /** The text opens with the first fragment's text. */
  lemma {:induction false} FirstRenderIsPrefix(sql: seq<Fragment>)
    requires |sql| >= 1
    ensures Render(sql[0]) <= Text(sql)
    decreases |sql|
  {
    var front := sql[..|sql| - 1];
    if |sql| == 1 {
      assert Text(sql) == Text(front) + Render(sql[0]);
      assert Text(front) == [];
    } else {
      FirstRenderIsPrefix(front);
      assert front[0] == sql[0];
      PrefixExtend(Render(sql[0]), Text(front), Render(sql[|sql| - 1]));
    }
  }

  lemma LaterFragmentsAreConjuncts(sql: seq<Fragment>)
    requires |sql| >= 1 && Base !in sql[1..]
    ensures forall k :: 1 <= k < |sql| ==> IsConjunct(Render(sql[k]))
  {
    forall k | 1 <= k < |sql|
      ensures IsConjunct(Render(sql[k]))
    {
      assert sql[k] in sql[1..];
      ClauseRendersConjunct(sql[k]);
    }
  }

  /** The single `name contains "gym"` search binds `%gym%` to one `LIKE ?`. */
  lemma GymExample()
    ensures BuildSql([SearchCondition("1", Name, Contains, Str("gym"), false, None)])
            == Ok(Query([Base, NameLike], [Str("%gym%")]))
  {
    var c := SearchCondition("1", Name, Contains, Str("gym"), false, None);
    assert [c][..0] == [];
    assert BuildSql([c][..0]) == Ok(Query([Base], []));
    assert LikePattern(Str("gym")) == "%gym%" by {
      assert Interpolate(Str("gym")) == "gym";
      assert "%" + "gym" + "%" == "%gym%";
    }
    assert ClauseOf(c) == Ok(Clause([NameLike], [Str("%gym%")]));
    assert [Base] + [NameLike] == [Base, NameLike];
    assert [] + [Str("%gym%")] == [Str("%gym%")];
  }
}
