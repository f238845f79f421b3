/** The CardDAV filter compiler (packages/core/src/carddav/addressbook-query-filter.ts) and the
    index rows its SQL runs over (packages/core/src/carddav/index-vcard.ts).

    The compiler's output is a sequence of tokens, as flat as the text it stands for: what it
    means is decided by a reader that knows SQL's precedence (NOT before AND before OR). */
module AddressbookQueryFilter {
  import opened Wrappers

  // ----- The filter -----

  datatype MatchType = Equals | Contains | StartsWith | EndsWith

  datatype Test = AnyOf | AllOf

  datatype TextMatch = TextMatch(value: string, matchType: MatchType, negate: bool, collation: string)

  datatype PropFilter = PropFilter(name: string, test: Test, isNotDefined: bool, textMatches: seq<TextMatch>,
                                   paramFilters: seq<string>)

  datatype Filter = Filter(test: Test, propFilters: seq<PropFilter>)

  const INDEXED_PROPERTY_NAMES: seq<string> := [
    "FN", "N", "EMAIL", "TEL", "ORG", "NICKNAME", "NOTE", "ADR", "TITLE", "ROLE", "URL", "BDAY", "CATEGORIES", "PHOTO"
  ]

  const SUPPORTED_COLLATIONS: set<string> := {"i;unicode-casemap", "i;ascii-casemap", "default"}

  /** What `findUnsupportedFilterParts` leaves nothing of; anything else is refused before it is compiled. */
  ghost predicate Supported(filter: Filter) {
    forall i :: 0 <= i < |filter.propFilters| ==>
      && filter.propFilters[i].name in INDEXED_PROPERTY_NAMES
      && filter.propFilters[i].paramFilters == []
      && forall j :: 0 <= j < |filter.propFilters[i].textMatches| ==>
           filter.propFilters[i].textMatches[j].collation in SUPPORTED_COLLATIONS
  }

  // ----- What a filter means, of the property values of one contact -----

  ghost predicate ValueMatches(matchType: MatchType, text: string, value: string) {
    match matchType
    case Equals => value == text
    case Contains => exists k :: 0 <= k <= |value| && text <= value[k..]
    case StartsWith => text <= value
    case EndsWith => |text| <= |value| && value[|value| - |text|..] == text
  }

  /** A text match is judged over all values of the property; its negation negates that whole result. */
  ghost predicate TextMatchHolds(m: TextMatch, values: seq<string>, normalize: string -> string) {
    m.negate != exists k :: 0 <= k < |values| && ValueMatches(m.matchType, normalize(m.value), normalize(values[k]))
  }

  ghost predicate Combined(test: Test, results: seq<bool>) {
    match test
    case AllOf => forall k :: 0 <= k < |results| ==> results[k]
    case AnyOf => exists k :: 0 <= k < |results| && results[k]
  }

  ghost predicate PropFilterHolds(p: PropFilter, values: seq<string>, normalize: string -> string) {
    if p.isNotDefined then values == []
    else
      && values != []
      && (p.textMatches == [] ||
          Combined(p.test, seq(|p.textMatches|, (j: int) requires 0 <= j < |p.textMatches| =>
            TextMatchHolds(p.textMatches[j], values, normalize))))
  }

  /** A parsed card: the values of each property it has. */
  type Card = map<string, seq<string>>

  function ValuesOf(card: Card, name: string): seq<string> {
    if name in card then card[name] else []
  }

  /** Section 10.5 of RFC 6352: a filter without conditions matches every contact. */
  ghost predicate FilterHolds(filter: Filter, card: Card, normalize: string -> string) {
    filter.propFilters == [] ||
    Combined(filter.test, seq(|filter.propFilters|, (i: int) requires 0 <= i < |filter.propFilters| =>
      PropFilterHolds(filter.propFilters[i], ValuesOf(card, filter.propFilters[i].name), normalize)))
  }

  // ----- SQL -----

  datatype Comparison = EqualTo(parameter: string) | LikeEscaped(parameter: string)

  /** `Exists` is a whole EXISTS subquery: an index row of the object (the outer query's row) with the
      named property that also satisfies the comparison, if there is one. */
  datatype Token = LParen | RParen | And | Or | Not
                 | Exists(alias: string, propertyParameter: string, condition: Option<Comparison>)

  datatype IndexRow = IndexRow(addressObjectId: nat, propertyName: string, propertyValue: string)

  /** Where a condition is evaluated: the index table, the object of the outer query and its alias, the
      bound parameters, and how the engine folds case in LIKE (SQLite folds ASCII letters). */
  datatype Context = Context(rows: seq<IndexRow>, objectId: nat, objectAlias: string,
                             parameters: map<string, string>, fold: char -> char)

  /** `LIKE ... ESCAPE '!'`. */
  predicate Like(text: string, pattern: string, fold: char -> char)
    decreases |text| + |pattern|
  {
    if pattern == [] then text == []
    else if pattern[0] == '%' then
      Like(text, pattern[1..], fold) || (text != [] && Like(text[1..], pattern, fold))
    else if pattern[0] == '_' then
      text != [] && Like(text[1..], pattern[1..], fold)
    else if pattern[0] == '!' then
      |pattern| > 1 && text != [] && fold(text[0]) == fold(pattern[1]) && Like(text[1..], pattern[2..], fold)
    else
      text != [] && fold(text[0]) == fold(pattern[0]) && Like(text[1..], pattern[1..], fold)
  }

  predicate ComparisonHolds(c: Comparison, value: string, ctx: Context) {
    && c.parameter in ctx.parameters
    && match c
       case EqualTo(p) => value == ctx.parameters[p]
       case LikeEscaped(p) => Like(value, ctx.parameters[p], ctx.fold)
  }

  /** An alias that hid the outer query's would compare the subquery's row with itself. */
  ghost predicate ExistsHolds(t: Token, ctx: Context)
    requires t.Exists?
  {
    && t.propertyParameter in ctx.parameters
    && t.alias != ctx.objectAlias
    && (exists row :: row in ctx.rows && row.addressObjectId == ctx.objectId
          && row.propertyName == ctx.parameters[t.propertyParameter]
          && (t.condition.None? || ComparisonHolds(t.condition.value, row.propertyValue, ctx)))
  }

  datatype Reading = Unreadable | Read(holds: bool, rest: seq<Token>)

  ghost function ReadOr(ts: seq<Token>, ctx: Context): (r: Reading)
    ensures r.Read? ==> |r.rest| < |ts|
    decreases |ts|, 4
  {
    match ReadAnd(ts, ctx)
    case Unreadable => Unreadable
    case Read(v, rest) => ReadMoreOr(v, rest, ctx)
  }

  ghost function ReadMoreOr(v: bool, ts: seq<Token>, ctx: Context): (r: Reading)
    ensures r.Read? ==> |r.rest| <= |ts|
    decreases |ts|, 0
  {
    if ts == [] || ts[0] != Or then Read(v, ts)
    else
      match ReadAnd(ts[1..], ctx)
      case Unreadable => Unreadable
      case Read(w, rest) => ReadMoreOr(v || w, rest, ctx)
  }

  ghost function ReadAnd(ts: seq<Token>, ctx: Context): (r: Reading)
    ensures r.Read? ==> |r.rest| < |ts|
    decreases |ts|, 3
  {
    match ReadNot(ts, ctx)
    case Unreadable => Unreadable
    case Read(v, rest) => ReadMoreAnd(v, rest, ctx)
  }

  ghost function ReadMoreAnd(v: bool, ts: seq<Token>, ctx: Context): (r: Reading)
    ensures r.Read? ==> |r.rest| <= |ts|
    decreases |ts|, 0
  {
    if ts == [] || ts[0] != And then Read(v, ts)
    else
      match ReadNot(ts[1..], ctx)
      case Unreadable => Unreadable
      case Read(w, rest) => ReadMoreAnd(v && w, rest, ctx)
  }

  ghost function ReadNot(ts: seq<Token>, ctx: Context): (r: Reading)
    ensures r.Read? ==> |r.rest| < |ts|
    decreases |ts|, 2
  {
    if ts == [] then Unreadable
    else if ts[0] == Not then
      match ReadNot(ts[1..], ctx)
      case Unreadable => Unreadable
      case Read(v, rest) => Read(!v, rest)
    else if ts[0] == LParen then
      match ReadOr(ts[1..], ctx)
      case Unreadable => Unreadable
      case Read(v, rest) => if rest == [] || rest[0] != RParen then Unreadable else Read(v, rest[1..])
    else if ts[0].Exists? then Read(ExistsHolds(ts[0], ctx), ts[1..])
    else Unreadable
  }

  /** What the database makes of a whole condition. */
  ghost function Meaning(ts: seq<Token>, ctx: Context): Option<bool> {
    var r := ReadOr(ts, ctx);
    if r.Read? && r.rest == [] then Some(r.holds) else None
  }

  // ----- The compiler -----

  function EscapeLike(text: string): string {
    if text == [] then []
    else (if text[0] in {'!', '%', '_'} then ['!', text[0]] else [text[0]]) + EscapeLike(text[1..])
  }

  function Digit(n: nat): char
    requires n < 10
  {
    ['0', '1', '2', '3', '4', '5', '6', '7', '8', '9'][n]
  }

  function Decimal(n: nat): string {
    (if n < 10 then [] else Decimal(n / 10)) + [Digit(n % 10)]
  }

  function Numbered(prefix: char, i: nat): string {
    [prefix] + Decimal(i)
  }

  function NumberedPair(prefix: char, i: nat, j: nat): string {
    [prefix] + (Decimal(i) + ['_'] + Decimal(j))
  }

  /** What is bound to a text match's value parameter. */
  function PatternOf(m: TextMatch, normalize: string -> string): string {
    var text := normalize(m.value);
    match m.matchType
    case Equals => text
    case Contains => "%" + EscapeLike(text) + "%"
    case StartsWith => EscapeLike(text) + "%"
    case EndsWith => "%" + EscapeLike(text)
  }

  function TextMatchSql(i: nat, j: nat, m: TextMatch): seq<Token> {
    var v := NumberedPair('v', i, j);
    var found := Exists(NumberedPair('m', i, j), Numbered('p', i),
                        Some(if m.matchType.Equals? then EqualTo(v) else LikeEscaped(v)));
    if m.negate then [Not, found] else [found]
  }

  function Operator(test: Test): Token {
    if test.AllOf? then And else Or
  }

  /** `join`. */
  function Join(parts: seq<seq<Token>>, separator: Token): seq<Token> {
    if parts == [] then []
    else if |parts| == 1 then parts[0]
    else Join(parts[..|parts| - 1], separator) + [separator] + parts[|parts| - 1]
  }

  function TextMatchParts(i: nat, p: PropFilter): (parts: seq<seq<Token>>)
    ensures |parts| == |p.textMatches|
    ensures forall j :: 0 <= j < |parts| ==> parts[j] == TextMatchSql(i, j, p.textMatches[j])
  {
    seq(|p.textMatches|, (j: int) requires 0 <= j < |p.textMatches| => TextMatchSql(i, j, p.textMatches[j]))
  }

  function PropFilterSql(i: nat, p: PropFilter): seq<Token> {
    var defined := Exists(Numbered('d', i), Numbered('p', i), None);
    if p.isNotDefined then [Not, defined]
    else if p.textMatches == [] then [defined]
    else [defined] + [And] + ([LParen] + Join(TextMatchParts(i, p), Operator(p.test)) + [RParen])
  }

  function PropFilterParts(filter: Filter): (parts: seq<seq<Token>>)
    ensures |parts| == |filter.propFilters|
    ensures forall i :: 0 <= i < |parts| ==> parts[i] == [LParen] + PropFilterSql(i, filter.propFilters[i]) + [RParen]
  {
    seq(|filter.propFilters|, (i: int) requires 0 <= i < |filter.propFilters| =>
          [LParen] + PropFilterSql(i, filter.propFilters[i]) + [RParen])
  }

  function FilterSql(filter: Filter): seq<Token> {
    [LParen] + Join(PropFilterParts(filter), Operator(filter.test)) + [RParen]
  }

  datatype FilterCondition = FilterCondition(sql: seq<Token>, parameters: map<string, string>)

  /** The parameters of prop-filter `i` have the values they were given. */
  ghost predicate PropFilterBound(filter: Filter, i: nat, parameters: map<string, string>,
                                  normalize: string -> string) {
    i < |filter.propFilters| ==>
      var p := filter.propFilters[i];
      && Binds(parameters, Numbered('p', i), p.name)
      && (p.isNotDefined || MatchesBound(p, i, |p.textMatches|, parameters, normalize))
  }

  ghost predicate MatchesBound(p: PropFilter, i: nat, n: nat, parameters: map<string, string>,
                               normalize: string -> string) {
    n <= |p.textMatches|
    && forall j :: 0 <= j < n ==>
         Binds(parameters, NumberedPair('v', i, j), PatternOf(p.textMatches[j], normalize))
  }

  ghost predicate Binds(parameters: map<string, string>, name: string, value: string) {
    name in parameters && parameters[name] == value
  }

  ghost predicate BoundUpTo(filter: Filter, n: nat, parameters: map<string, string>, normalize: string -> string) {
    forall i :: 0 <= i < n ==> PropFilterBound(filter, i, parameters, normalize)
  }

  /** The state while the text-matches of prop-filter `i` are compiled. */
  ghost predicate MatchesCompiled(filter: Filter, i: nat, j: nat, parameters: map<string, string>,
                                  normalize: string -> string) {
    && i < |filter.propFilters|
    && BoundUpTo(filter, i, parameters, normalize)
    && Binds(parameters, Numbered('p', i), filter.propFilters[i].name)
    && MatchesBound(filter.propFilters[i], i, j, parameters, normalize)
  }

  /** No condition at all only for a filter without prop-filters. The parameters are bound one by one in a shared
      record; no binding is ever overwritten by a later one. */
  method BuildFilterCondition(filter: Filter, normalize: string -> string) returns (condition: Option<FilterCondition>)
    ensures condition.None? <==> filter.propFilters == []
    ensures condition.Some? ==> condition.value.sql == FilterSql(filter)
    ensures condition.Some? ==> BoundUpTo(filter, |filter.propFilters|, condition.value.parameters, normalize)
  {
    if filter.propFilters == [] {
      return None;
    }
    var parameters: map<string, string>, parts: seq<seq<Token>> := map[], [];
    for i := 0 to |filter.propFilters|
      invariant parts == PropFilterParts(filter)[..i]
      invariant BoundUpTo(filter, i, parameters, normalize)
    {
      var sql;
      sql, parameters := CompilePropFilter(filter, i, parameters, normalize);
      parts := parts + [[LParen] + sql + [RParen]];
    }
    assert parts == PropFilterParts(filter) by {
      assert PropFilterParts(filter)[..|parts|] == PropFilterParts(filter);
    }
    return Some(FilterCondition([LParen] + Join(parts, Operator(filter.test)) + [RParen], parameters));
  }

  /** `propFilterSql`. */
  method CompilePropFilter(filter: Filter, i: nat, before: map<string, string>, normalize: string -> string)
      returns (sql: seq<Token>, parameters: map<string, string>)
    requires i < |filter.propFilters| && BoundUpTo(filter, i, before, normalize)
    ensures sql == PropFilterSql(i, filter.propFilters[i])
    ensures BoundUpTo(filter, i + 1, parameters, normalize)
  {
    var p := filter.propFilters[i];
    parameters := before[Numbered('p', i) := p.name];
    NewBindingKeeps(filter, i, 0, before, Numbered('p', i), p.name, normalize);
    var defined := Exists(Numbered('d', i), Numbered('p', i), None);
    if p.isNotDefined {
      return [Not, defined], parameters;
    }
    if p.textMatches == [] {
      return [defined], parameters;
    }
    var matches;
    matches, parameters := CompileTextMatches(filter, i, parameters, normalize);
    sql := [defined] + [And] + ([LParen] + Join(matches, Operator(p.test)) + [RParen]);
  }

  /** `textMatchSql`, for each text-match of prop-filter `i`. */
  method CompileTextMatches(filter: Filter, i: nat, before: map<string, string>, normalize: string -> string)
      returns (matches: seq<seq<Token>>, parameters: map<string, string>)
    requires i < |filter.propFilters| && BoundUpTo(filter, i, before, normalize)
    requires Binds(before, Numbered('p', i), filter.propFilters[i].name)
    ensures matches == TextMatchParts(i, filter.propFilters[i])
    ensures BoundUpTo(filter, i + 1, parameters, normalize)
  {
    var p := filter.propFilters[i];
    ghost var all := TextMatchParts(i, p);
    matches, parameters := [], before;
    for j := 0 to |p.textMatches|
      invariant matches == all[..j]
      invariant MatchesCompiled(filter, i, j, parameters, normalize)
    {
      var m := p.textMatches[j];
      NewMatchKeeps(filter, i, j, parameters, normalize);
      parameters := parameters[NumberedPair('v', i, j) := PatternOf(m, normalize)];
      matches := matches + [TextMatchSql(i, j, m)];
    }
    assert all[..|all|] == all;
    assert PropFilterBound(filter, i, parameters, normalize);
  }

  // ----- Names -----

  lemma {:induction false} DecimalShape(n: nat)
    ensures Decimal(n) != []
    ensures n >= 10 ==> |Decimal(n)| > 1
    ensures forall k :: 0 <= k < |Decimal(n)| ==> Decimal(n)[k] != '_'
  {
    if n < 10 {
    } else {
      DecimalShape(n / 10);
    }
  }

  lemma {:induction false} DecimalInjective(a: nat, b: nat)
    requires Decimal(a) == Decimal(b)
    ensures a == b
  {
    DecimalShape(a);
    DecimalShape(b);
    var s, t := Decimal(a), Decimal(b);
    assert s[|s| - 1] == Digit(a % 10) && t[|t| - 1] == Digit(b % 10);
    assert a % 10 == b % 10;
    if a < 10 {
    } else {
      assert Decimal(a / 10) == s[..|s| - 1] && Decimal(b / 10) == t[..|t| - 1];
      DecimalInjective(a / 10, b / 10);
    }
  }

  lemma SplitAtUnderscore(a: string, b: string, c: string, d: string)
    requires a + ['_'] + b == c + ['_'] + d
    requires forall k :: 0 <= k < |a| ==> a[k] != '_'
    requires forall k :: 0 <= k < |c| ==> c[k] != '_'
    ensures a == c && b == d
  {
    var s := a + ['_'] + b;
    assert s[|a|] == '_' && s[|c|] == '_';
    assert forall k :: 0 <= k < |a| ==> s[k] == a[k];
    assert forall k :: 0 <= k < |c| ==> s[k] == c[k];
    assert a == s[..|a|] && c == s[..|c|];
    assert b == s[|a| + 1..] && d == s[|c| + 1..];
  }

  lemma SameTail(prefix: char, s: string, t: string)
    requires [prefix] + s == [prefix] + t
    ensures s == t
  {
    assert s == ([prefix] + s)[1..] && t == ([prefix] + t)[1..];
  }

  lemma PropNamesDiffer(i: nat, k: nat)
    requires Numbered('p', i) == Numbered('p', k)
    ensures i == k
  {
    SameTail('p', Decimal(i), Decimal(k));
    DecimalInjective(i, k);
  }

  lemma MatchNamesDiffer(i: nat, j: nat, k: nat, l: nat)
    requires NumberedPair('v', i, j) == NumberedPair('v', k, l)
    ensures i == k && j == l
  {
    SameTail('v', Decimal(i) + ['_'] + Decimal(j), Decimal(k) + ['_'] + Decimal(l));
    assert Decimal(i) == Decimal(k) && Decimal(j) == Decimal(l) by {
      DecimalShape(i);
      DecimalShape(k);
      SplitAtUnderscore(Decimal(i), Decimal(j), Decimal(k), Decimal(l));
    }
    DecimalInjective(i, k);
    DecimalInjective(j, l);
  }

  /** Different prop-filters and text-matches have different parameters. */
  lemma NamesDiffer(i: nat, j: nat, k: nat, l: nat)
    ensures Numbered('p', i) == Numbered('p', k) ==> i == k
    ensures NumberedPair('v', i, j) == NumberedPair('v', k, l) ==> i == k && j == l
    ensures Numbered('p', i) != NumberedPair('v', k, l)
  {
    assert Numbered('p', i)[0] == 'p' && NumberedPair('v', k, l)[0] == 'v';
    if Numbered('p', i) == Numbered('p', k) {
      PropNamesDiffer(i, k);
    }
    if NumberedPair('v', i, j) == NumberedPair('v', k, l) {
      MatchNamesDiffer(i, j, k, l);
    }
  }

  /** Binding a parameter of prop-filter `i` leaves those of the prop-filters before it alone. */
  lemma NewBindingKeeps(filter: Filter, i: nat, j: nat, before: map<string, string>, name: string, value: string,
                        normalize: string -> string)
    requires i < |filter.propFilters| && BoundUpTo(filter, i, before, normalize)
    requires name == Numbered('p', i) || name == NumberedPair('v', i, j)
    ensures BoundUpTo(filter, i, before[name := value], normalize)
  {
    var after := before[name := value];
    forall k | 0 <= k < i
      ensures PropFilterBound(filter, k, after, normalize)
    {
      assert PropFilterBound(filter, k, before, normalize);
      OtherNames(i, j, k);
      forall l: nat
        ensures name != NumberedPair('v', k, l)
      {
        NamesDiffer(i, j, k, l);
      }
    }
  }

  /** Binding the pattern of text-match `j` leaves those of the text-matches before it alone. */
  lemma NewMatchKeeps(filter: Filter, i: nat, j: nat, before: map<string, string>, normalize: string -> string)
    requires i < |filter.propFilters| && j < |filter.propFilters[i].textMatches|
    requires MatchesCompiled(filter, i, j, before, normalize)
    ensures MatchesCompiled(filter, i, j + 1,
              before[NumberedPair('v', i, j) := PatternOf(filter.propFilters[i].textMatches[j], normalize)], normalize)
  {
    var p := filter.propFilters[i];
    var name, value := NumberedPair('v', i, j), PatternOf(p.textMatches[j], normalize);
    var after := before[name := value];
    NewBindingKeeps(filter, i, j, before, name, value, normalize);
    NamesDiffer(i, 0, i, j);
    forall l | 0 <= l <= j
      ensures Binds(after, NumberedPair('v', i, l), PatternOf(p.textMatches[l], normalize))
    {
      if l < j {
        assert Binds(before, NumberedPair('v', i, l), PatternOf(p.textMatches[l], normalize));
        NamesDiffer(i, j, i, l);
      }
    }
  }

  lemma OtherNames(i: nat, j: nat, k: nat)
    requires k != i
    ensures Numbered('p', k) != Numbered('p', i) && Numbered('p', k) != NumberedPair('v', i, j)
  {
    NamesDiffer(k, 0, i, j);
  }

  // ----- Reading the compiled text -----

  /** Read where an operand of AND may stand, `ts` is exactly one operand, and means `v`. */
  ghost predicate OperandOfAnd(ts: seq<Token>, v: bool, ctx: Context) {
    forall rest :: ReadNot(ts + rest, ctx) == Read(v, rest)
  }

  ghost predicate OperandOfOr(ts: seq<Token>, v: bool, ctx: Context) {
    forall rest :: rest == [] || rest[0] != And ==> ReadAnd(ts + rest, ctx) == Read(v, rest)
  }

  ghost predicate Condition(ts: seq<Token>, v: bool, ctx: Context) {
    forall rest :: rest == [] || (rest[0] != And && rest[0] != Or) ==> ReadOr(ts + rest, ctx) == Read(v, rest)
  }

  lemma ExistsReads(t: Token, ctx: Context)
    requires t.Exists?
    ensures OperandOfAnd([t], ExistsHolds(t, ctx), ctx)
    ensures OperandOfAnd([Not, t], !ExistsHolds(t, ctx), ctx)
  {
    forall rest
      ensures ReadNot([t] + rest, ctx) == Read(ExistsHolds(t, ctx), rest)
      ensures ReadNot([Not, t] + rest, ctx) == Read(!ExistsHolds(t, ctx), rest)
    {
      assert ([t] + rest)[1..] == rest;
      assert ([Not, t] + rest)[1..] == [t] + rest;
    }
  }

  lemma OperandReads(ts: seq<Token>, v: bool, ctx: Context)
    requires OperandOfAnd(ts, v, ctx)
    ensures OperandOfOr(ts, v, ctx) && Condition(ts, v, ctx)
  {
  }

  lemma DisjunctReads(ts: seq<Token>, v: bool, ctx: Context)
    requires OperandOfOr(ts, v, ctx)
    ensures Condition(ts, v, ctx)
  {
  }

  /** Parentheses turn any condition into one operand. */
  lemma ParenthesesRead(ts: seq<Token>, v: bool, ctx: Context)
    requires Condition(ts, v, ctx)
    ensures OperandOfAnd([LParen] + ts + [RParen], v, ctx)
  {
    forall rest
      ensures ReadNot([LParen] + ts + [RParen] + rest, ctx) == Read(v, rest)
    {
      var whole, after := [LParen] + ts + [RParen] + rest, [RParen] + rest;
      assert whole[1..] == ts + after;
      assert ReadOr(ts + after, ctx) == Read(v, after);
      assert after[1..] == rest;
    }
  }

  lemma CombinedLast(test: Test, vs: seq<bool>)
    requires vs != []
    ensures var front, last := Combined(test, vs[..|vs| - 1]), vs[|vs| - 1];
            Combined(test, vs) == if test.AllOf? then front && last else front || last
  {
    var n := |vs| - 1;
    assert vs == vs[..n] + [vs[n]];
    assert forall k :: 0 <= k < n ==> vs[k] == vs[..n][k];
  }

  lemma NextConjunct(u: bool, part: seq<Token>, v: bool, rest: seq<Token>, ctx: Context)
    requires OperandOfAnd(part, v, ctx)
    ensures ReadMoreAnd(u, [And] + (part + rest), ctx) == ReadMoreAnd(u && v, rest, ctx)
  {
    assert ([And] + (part + rest))[1..] == part + rest;
    assert ReadNot(part + rest, ctx) == Read(v, rest);
  }

  lemma NextDisjunct(u: bool, part: seq<Token>, v: bool, rest: seq<Token>, ctx: Context)
    requires OperandOfOr(part, v, ctx) && (rest == [] || rest[0] != And)
    ensures ReadMoreOr(u, [Or] + (part + rest), ctx) == ReadMoreOr(u || v, rest, ctx)
  {
    assert ([Or] + (part + rest))[1..] == part + rest;
    assert ReadAnd(part + rest, ctx) == Read(v, rest);
  }

  lemma JoinLast(parts: seq<seq<Token>>, separator: Token, rest: seq<Token>)
    requires |parts| > 1
    ensures var n := |parts| - 1;
            Join(parts, separator) + rest == Join(parts[..n], separator) + ([separator] + (parts[n] + rest))
  {
  }

  lemma {:induction false} ConjunctionReads(parts: seq<seq<Token>>, vs: seq<bool>, rest: seq<Token>, ctx: Context)
    requires |parts| == |vs| > 0 && forall k :: 0 <= k < |parts| ==> OperandOfAnd(parts[k], vs[k], ctx)
    ensures ReadAnd(Join(parts, And) + rest, ctx) == ReadMoreAnd(Combined(AllOf, vs), rest, ctx)
  {
    var n := |parts| - 1;
    CombinedLast(AllOf, vs);
    if n > 0 {
      ConjunctionReads(parts[..n], vs[..n], [And] + (parts[n] + rest), ctx);
      NextConjunct(Combined(AllOf, vs[..n]), parts[n], vs[n], rest, ctx);
      JoinLast(parts, And, rest);
    } else {
      assert ReadNot(parts[0] + rest, ctx) == Read(vs[0], rest);
    }
  }

  lemma {:induction false} DisjunctionReads(parts: seq<seq<Token>>, vs: seq<bool>, rest: seq<Token>, ctx: Context)
    requires |parts| == |vs| > 0 && forall k :: 0 <= k < |parts| ==> OperandOfOr(parts[k], vs[k], ctx)
    requires rest == [] || rest[0] != And
    ensures ReadOr(Join(parts, Or) + rest, ctx) == ReadMoreOr(Combined(AnyOf, vs), rest, ctx)
  {
    var n := |parts| - 1;
    CombinedLast(AnyOf, vs);
    if n > 0 {
      DisjunctionReads(parts[..n], vs[..n], [Or] + (parts[n] + rest), ctx);
      NextDisjunct(Combined(AnyOf, vs[..n]), parts[n], vs[n], rest, ctx);
      JoinLast(parts, Or, rest);
    } else {
      assert ReadAnd(parts[0] + rest, ctx) == Read(vs[0], rest);
    }
  }

  /** Operands joined by the operator of a test mean what the test makes of them. */
  lemma JoinReads(test: Test, parts: seq<seq<Token>>, vs: seq<bool>, ctx: Context)
    requires |parts| == |vs| > 0 && forall k :: 0 <= k < |parts| ==> OperandOfAnd(parts[k], vs[k], ctx)
    ensures Condition(Join(parts, Operator(test)), Combined(test, vs), ctx)
    ensures test.AllOf? ==> OperandOfOr(Join(parts, And), Combined(test, vs), ctx)
  {
    forall rest: seq<Token> | test.AllOf? && (rest == [] || rest[0] != And)
      ensures ReadAnd(Join(parts, And) + rest, ctx) == Read(Combined(AllOf, vs), rest)
    {
      ConjunctionReads(parts, vs, rest, ctx);
    }
    if test.AllOf? {
      DisjunctReads(Join(parts, And), Combined(test, vs), ctx);
    } else {
      forall k | 0 <= k < |parts|
        ensures OperandOfOr(parts[k], vs[k], ctx)
      {
        OperandReads(parts[k], vs[k], ctx);
      }
      forall rest: seq<Token> | rest == [] || (rest[0] != And && rest[0] != Or)
        ensures ReadOr(Join(parts, Or) + rest, ctx) == Read(Combined(AnyOf, vs), rest)
      {
        DisjunctionReads(parts, vs, rest, ctx);
      }
    }
  }

  // ----- LIKE on escaped text -----

  /** Folding case changes nothing in `s`: true of normalized text, which is lower case already. */
  ghost predicate Plain(fold: char -> char, s: string) {
    forall k :: 0 <= k < |s| ==> fold(s[k]) == s[k]
  }

  lemma {:induction false} EscapedIsLiteral(text: string, t: string, tail: string, fold: char -> char)
    requires Plain(fold, text) && Plain(fold, t)
    ensures Like(text, EscapeLike(t) + tail, fold) <==> t <= text && Like(text[|t|..], tail, fold)
  {
    if t == [] {
      assert EscapeLike(t) + tail == tail && text[0..] == text;
    } else {
      var c, rest := t[0], EscapeLike(t[1..]) + tail;
      var special := c in {'!', '%', '_'};
      assert EscapeLike(t) + tail == (if special then ['!', c] else [c]) + rest;
      if text != [] {
        EscapedIsLiteral(text[1..], t[1..], tail, fold);
        assert t <= text <==> text[0] == c && t[1..] <= text[1..] by {
          assert t == [c] + t[1..] && text == [text[0]] + text[1..];
        }
        assert special ==> (EscapeLike(t) + tail)[2..] == rest;
        assert !special ==> (EscapeLike(t) + tail)[1..] == rest;
        assert t <= text ==> text[1..][|t[1..]|..] == text[|t|..];
      }
    }
  }

  lemma {:induction false} PercentMatchesAnywhere(text: string, pattern: string, fold: char -> char)
    ensures Like(text, ['%'] + pattern, fold) <==> exists k :: 0 <= k <= |text| && Like(text[k..], pattern, fold)
  {
    assert (['%'] + pattern)[1..] == pattern && text[0..] == text;
    if text == [] {
    } else {
      PercentMatchesAnywhere(text[1..], pattern, fold);
      if k :| 0 <= k <= |text| && Like(text[k..], pattern, fold) {
        if k > 0 {
          assert text[1..][k - 1..] == text[k..];
        }
      }
      if k :| 0 <= k <= |text[1..]| && Like(text[1..][k..], pattern, fold) {
        assert text[1..][k..] == text[k + 1..];
      }
    }
  }

  /** An underscore stands for any one character; behind the escape character it stands for itself. */
  lemma UnderscoreMatchesOne(text: string, pattern: string, fold: char -> char)
    ensures Like(text, ['_'] + pattern, fold) <==> text != [] && Like(text[1..], pattern, fold)
    ensures Like(text, ['!', '_'] + pattern, fold)
            <==> text != [] && fold(text[0]) == fold('_') && Like(text[1..], pattern, fold)
  {
    assert (['_'] + pattern)[1..] == pattern && (['!', '_'] + pattern)[2..] == pattern;
  }

  lemma {:induction false} PercentMatchesAll(text: string, fold: char -> char)
    ensures Like(text, "%", fold)
  {
    assert "%"[1..] == [];
    if text == [] {
    } else {
      PercentMatchesAll(text[1..], fold);
    }
  }

  /** The bound pattern, under the comparison it is compiled to, is exactly the match type's meaning. */
  lemma PatternMeansMatch(m: TextMatch, value: string, normalize: string -> string, fold: char -> char)
    requires Plain(fold, normalize(m.value)) && Plain(fold, value)
    ensures (if m.matchType.Equals? then value == PatternOf(m, normalize)
             else Like(value, PatternOf(m, normalize), fold))
            <==> ValueMatches(m.matchType, normalize(m.value), value)
  {
    var t := normalize(m.value);
    match m.matchType
    case Equals =>
    case Contains =>
      assert PatternOf(m, normalize) == ['%'] + (EscapeLike(t) + "%");
      PercentMatchesAnywhere(value, EscapeLike(t) + "%", fold);
      forall k | 0 <= k <= |value|
        ensures Like(value[k..], EscapeLike(t) + "%", fold) <==> t <= value[k..]
      {
        EscapedIsLiteral(value[k..], t, "%", fold);
        if t <= value[k..] {
          PercentMatchesAll(value[k..][|t|..], fold);
        }
      }
    case StartsWith =>
      EscapedIsLiteral(value, t, "%", fold);
      if t <= value {
        PercentMatchesAll(value[|t|..], fold);
      }
    case EndsWith =>
      EndsWithMeans(t, value, fold);
  }

  lemma EndsWithMeans(t: string, value: string, fold: char -> char)
    requires Plain(fold, t) && Plain(fold, value)
    ensures Like(value, ['%'] + EscapeLike(t), fold) <==> ValueMatches(EndsWith, t, value)
  {
    PercentMatchesAnywhere(value, EscapeLike(t), fold);
    forall k | 0 <= k <= |value|
      ensures Like(value[k..], EscapeLike(t), fold) <==> value[k..] == t
    {
      assert EscapeLike(t) + [] == EscapeLike(t);
      EscapedIsLiteral(value[k..], t, [], fold);
      assert t <= value[k..] && value[k..][|t|..] == [] ==> value[k..] == t;
    }
    if ValueMatches(EndsWith, t, value) {
      assert value[|value| - |t|..] == t;
    }
  }

  // ----- The index rows -----

  const INDEX_VERSION_PROPERTY := "_INDEX_VERSION"
  const INDEX_VERSION := "2"

  /** The rows of an object are its card's indexed values, normalized, and the version marker. */
  ghost predicate IndexedAs(rows: seq<IndexRow>, id: nat, card: Card, normalize: string -> string) {
    && (forall row :: row in rows && row.addressObjectId == id ==> RowOf(row, card, normalize) || row == Marker(id))
    && (forall name, k :: name in INDEXED_PROPERTY_NAMES && 0 <= k < |ValuesOf(card, name)| ==>
          IndexRow(id, name, normalize(ValuesOf(card, name)[k])) in rows)
    && Marker(id) in rows
  }

  function Marker(id: nat): IndexRow {
    IndexRow(id, INDEX_VERSION_PROPERTY, INDEX_VERSION)
  }

  ghost predicate RowOf(row: IndexRow, card: Card, normalize: string -> string) {
    && row.propertyName in INDEXED_PROPERTY_NAMES
    && exists k :: 0 <= k < |ValuesOf(card, row.propertyName)|
                   && row.propertyValue == normalize(ValuesOf(card, row.propertyName)[k])
  }

  function RowsOfProperty(id: nat, name: string, values: seq<string>,
                          normalize: string -> string): (rows: seq<IndexRow>)
    ensures |rows| == |values| && forall k :: 0 <= k < |values| ==> rows[k] == IndexRow(id, name, normalize(values[k]))
  {
    seq(|values|, (k: int) requires 0 <= k < |values| => IndexRow(id, name, normalize(values[k])))
  }

  /** Replaces the object's rows; the rows of other objects stay. */
  method IndexVCard(rows: seq<IndexRow>, id: nat, card: Card, normalize: string -> string) returns (next: seq<IndexRow>)
    ensures IndexedAs(next, id, card, normalize)
    ensures forall row: IndexRow :: row.addressObjectId != id ==> (row in next <==> row in rows)
  {
    next := DeleteRows(rows, id);
    for n := 0 to |INDEXED_PROPERTY_NAMES|
      invariant forall row: IndexRow :: row.addressObjectId != id ==> (row in next <==> row in rows)
      invariant forall row :: row in next && row.addressObjectId == id ==> RowOf(row, card, normalize)
      invariant forall m, k :: 0 <= m < n && 0 <= k < |ValuesOf(card, INDEXED_PROPERTY_NAMES[m])| ==>
                  IndexRow(id, INDEXED_PROPERTY_NAMES[m],
                           normalize(ValuesOf(card, INDEXED_PROPERTY_NAMES[m])[k])) in next
    {
      var name := INDEXED_PROPERTY_NAMES[n];
      next := next + RowsOfProperty(id, name, ValuesOf(card, name), normalize);
    }
    next := next + [Marker(id)];
  }

  method DeleteRows(rows: seq<IndexRow>, id: nat) returns (next: seq<IndexRow>)
    ensures forall row :: row in next <==> row in rows && row.addressObjectId != id
  {
    next := [];
    for i := 0 to |rows|
      invariant forall row :: row in next <==> row in rows[..i] && row.addressObjectId != id
    {
      assert rows[..i + 1] == rows[..i] + [rows[i]];
      if rows[i].addressObjectId != id {
        next := next + [rows[i]];
      }
    }
    assert rows[..|rows|] == rows;
  }

  // ----- The theorem -----

  /** What the compiled condition is evaluated in: the enclosing query's alias starts with neither `d` nor `m`,
      the parameters are the compiler's, the rows the indexer's, and normalized text is case-folded. */
  ghost predicate Evaluable(filter: Filter, card: Card, normalize: string -> string, ctx: Context) {
    && Supported(filter)
    && BoundUpTo(filter, |filter.propFilters|, ctx.parameters, normalize)
    && IndexedAs(ctx.rows, ctx.objectId, card, normalize)
    && (ctx.objectAlias == [] || ctx.objectAlias[0] !in {'d', 'm'})
    && forall s :: Plain(ctx.fold, normalize(s))
  }

  lemma DefinedMeans(filter: Filter, i: nat, card: Card, normalize: string -> string, ctx: Context)
    requires Evaluable(filter, card, normalize, ctx) && i < |filter.propFilters|
    ensures ExistsHolds(Exists(Numbered('d', i), Numbered('p', i), None), ctx)
            <==> ValuesOf(card, filter.propFilters[i].name) != []
  {
    var name := filter.propFilters[i].name;
    assert PropFilterBound(filter, i, ctx.parameters, normalize);
    assert Numbered('d', i)[0] == 'd';
    var values := ValuesOf(card, name);
    if values != [] {
      assert IndexRow(ctx.objectId, name, normalize(values[0])) in ctx.rows;
    }
  }

  lemma TextMatchMeans(filter: Filter, i: nat, j: nat, card: Card, normalize: string -> string, ctx: Context)
    requires Evaluable(filter, card, normalize, ctx) && i < |filter.propFilters|
    requires !filter.propFilters[i].isNotDefined && j < |filter.propFilters[i].textMatches|
    ensures var p := filter.propFilters[i];
            OperandOfAnd(TextMatchSql(i, j, p.textMatches[j]),
                         TextMatchHolds(p.textMatches[j], ValuesOf(card, p.name), normalize), ctx)
  {
    var p := filter.propFilters[i];
    var m, values := p.textMatches[j], ValuesOf(card, p.name);
    var v := NumberedPair('v', i, j);
    var comparison := if m.matchType.Equals? then EqualTo(v) else LikeEscaped(v);
    var found := Exists(NumberedPair('m', i, j), Numbered('p', i), Some(comparison));
    assert PropFilterBound(filter, i, ctx.parameters, normalize);
    assert Binds(ctx.parameters, v, PatternOf(m, normalize));
    assert NumberedPair('m', i, j)[0] == 'm';
    forall s
      ensures ComparisonHolds(comparison, normalize(s), ctx)
              <==> ValueMatches(m.matchType, normalize(m.value), normalize(s))
    {
      PatternMeansMatch(m, normalize(s), normalize, ctx.fold);
    }
    FoundMeans(found, p.name, m, card, normalize, ctx);
    ExistsReads(found, ctx);
  }

  lemma FoundMeans(found: Token, name: string, m: TextMatch, card: Card, normalize: string -> string, ctx: Context)
    requires found.Exists? && found.condition.Some? && found.alias != ctx.objectAlias
    requires IndexedAs(ctx.rows, ctx.objectId, card, normalize) && name in INDEXED_PROPERTY_NAMES
    requires Binds(ctx.parameters, found.propertyParameter, name)
    requires forall s :: ComparisonHolds(found.condition.value, normalize(s), ctx)
                         <==> ValueMatches(m.matchType, normalize(m.value), normalize(s))
    ensures ExistsHolds(found, ctx) != m.negate <==> TextMatchHolds(m, ValuesOf(card, name), normalize)
  {
    var values := ValuesOf(card, name);
    if k :| 0 <= k < |values| && ValueMatches(m.matchType, normalize(m.value), normalize(values[k])) {
      assert IndexRow(ctx.objectId, name, normalize(values[k])) in ctx.rows;
      assert ComparisonHolds(found.condition.value, normalize(values[k]), ctx);
    }
    if row :| row in ctx.rows && row.addressObjectId == ctx.objectId && row.propertyName == name
              && ComparisonHolds(found.condition.value, row.propertyValue, ctx) {
      assert RowOf(row, card, normalize);
      var k :| 0 <= k < |values| && row.propertyValue == normalize(values[k]);
    }
  }

  lemma PropFilterMeans(filter: Filter, i: nat, card: Card, normalize: string -> string, ctx: Context)
    requires Evaluable(filter, card, normalize, ctx) && i < |filter.propFilters|
    ensures var p := filter.propFilters[i];
            Condition(PropFilterSql(i, p), PropFilterHolds(p, ValuesOf(card, p.name), normalize), ctx)
  {
    var p := filter.propFilters[i];
    var values, d := ValuesOf(card, p.name), Exists(Numbered('d', i), Numbered('p', i), None);
    DefinedMeans(filter, i, card, normalize, ctx);
    ExistsReads(d, ctx);
    if p.isNotDefined {
      OperandReads([Not, d], values == [], ctx);
    } else if p.textMatches == [] {
      OperandReads([d], values != [], ctx);
    } else {
      var parts := TextMatchParts(i, p);
      var results := seq(|p.textMatches|, (j: int) requires 0 <= j < |p.textMatches| =>
                           TextMatchHolds(p.textMatches[j], values, normalize));
      forall j | 0 <= j < |parts|
        ensures OperandOfAnd(parts[j], results[j], ctx)
      {
        TextMatchMeans(filter, i, j, card, normalize, ctx);
      }
      JoinReads(p.test, parts, results, ctx);
      MatchesInParentheses(d, Join(parts, Operator(p.test)), Combined(p.test, results), ctx);
    }
  }

  lemma MatchesInParentheses(d: Token, matches: seq<Token>, v: bool, ctx: Context)
    requires d.Exists? && Condition(matches, v, ctx)
    ensures Condition([d] + [And] + ([LParen] + matches + [RParen]), ExistsHolds(d, ctx) && v, ctx)
  {
    ExistsReads(d, ctx);
    ParenthesesRead(matches, v, ctx);
    BothRead([d], ExistsHolds(d, ctx), [LParen] + matches + [RParen], v, ctx);
  }

  lemma BothRead(a: seq<Token>, u: bool, b: seq<Token>, v: bool, ctx: Context)
    requires OperandOfAnd(a, u, ctx) && OperandOfAnd(b, v, ctx)
    ensures Condition(a + [And] + b, u && v, ctx)
  {
    var parts, vs := [a, b], [u, v];
    JoinReads(AllOf, parts, vs, ctx);
    assert parts[..1] == [a] && Join([a], And) == a;
    assert Combined(AllOf, vs) == (u && v) by {
      CombinedLast(AllOf, vs);
      CombinedLast(AllOf, vs[..1]);
    }
  }

  /** The database reads the generated condition, with its bound parameters, over the index rows of a contact
      as exactly what the filter says of the contact's card. Collations play no part in either: values and texts are
      compared as normalised, so that `i;ascii-casemap` folds letters beyond ASCII, too. */
  lemma CompiledFilterMeansFilter(filter: Filter, card: Card, normalize: string -> string, ctx: Context)
    requires Evaluable(filter, card, normalize, ctx) && filter.propFilters != []
    ensures Meaning(FilterSql(filter), ctx) == Some(FilterHolds(filter, card, normalize))
  {
    var parts := PropFilterParts(filter);
    var results := seq(|filter.propFilters|, (i: int) requires 0 <= i < |filter.propFilters| =>
      PropFilterHolds(filter.propFilters[i], ValuesOf(card, filter.propFilters[i].name), normalize));
    forall i | 0 <= i < |parts|
      ensures OperandOfAnd(parts[i], results[i], ctx)
    {
      PropFilterMeans(filter, i, card, normalize, ctx);
      ParenthesesRead(PropFilterSql(i, filter.propFilters[i]), results[i], ctx);
    }
    JoinReads(filter.test, parts, results, ctx);
    var holds := Combined(filter.test, results);
    ParenthesesRead(Join(parts, Operator(filter.test)), holds, ctx);
    OperandReads(FilterSql(filter), holds, ctx);
    assert FilterSql(filter) + [] == FilterSql(filter);
  }
}
