/** The single-predicate WHERE evaluator (evaluateCondition, CRT.cpp:69-114).
    The original finds the predicate with the regular expression
    `(\w+)\s*([=<>!]+)\s*([^\s]+)`; ParseCondition states what that search
    finds, and EvalPredicate what the found triple means for one row. */
module Condition {
  import opened Wrappers
  import opened Strings
  import opened Validator
  import opened Tables

  /** The three captures of the regular expression. */
  datatype Predicate = Predicate(column: Str, op: Str, literal: Str)

  /** The six operators the evaluator knows; any other run of operator
      characters ("==", "=<", "!") makes the predicate false. */
  const Operators: set<Str> := {"=", "!=", ">", "<", ">=", "<="}
  const OrderingOperators: set<Str> := {">", "<", ">=", "<="}

  /** `\w`: a letter, a digit or '_'. */
  predicate IsWordChar(c: char) {
    'a' <= c <= 'z' || 'A' <= c <= 'Z' || IsDigit(c) || c == '_'
  }

  /** `[=<>!]` */
  predicate IsOpChar(c: char) {
    c == '=' || c == '<' || c == '>' || c == '!'
  }

  /** The character classes the expression repeats. */
  datatype CharClass = Word | Blank | OpChar | NonBlank

  predicate InClass(c: char, k: CharClass) {
    match k
    case Word => IsWordChar(c)
    case Blank => IsSpace(c)
    case OpChar => IsOpChar(c)
    case NonBlank => !IsSpace(c)
  }

  /** Every character of t is in class k. */
  predicate AllIn(t: Str, k: CharClass) {
    forall j :: 0 <= j < |t| ==> InClass(t[j], k)
  }

  /** A run of class `k` stays one when cut shorter, and each of its
      characters is in the class. */
  lemma AllInShorter(s: Str, i: nat, e: nat, e2: nat, k: CharClass)
    requires i <= e2 <= e <= |s| && AllIn(s[i..e], k)
    ensures AllIn(s[i..e2], k)
    ensures forall j :: i <= j < e ==> InClass(s[j], k)
  {
    forall j | i <= j < e
      ensures InClass(s[j], k)
    {
      assert s[j] == s[i..e][j - i];
    }
    forall j | 0 <= j < e2 - i
      ensures InClass(s[i..e2][j], k)
    {
      assert s[i..e2][j] == s[i + j];
    }
  }

  /** End of the longest run of class `k` that starts at `i`. */
  function RunEnd(s: Str, i: nat, k: CharClass): (e: nat)
    requires i <= |s|
    ensures i <= e <= |s|
    ensures AllIn(s[i..e], k)
    ensures e == |s| || !InClass(s[e], k)
    decreases |s| - i
  {
    if i == |s| || !InClass(s[i], k) then i
    else
      var e := RunEnd(s, i + 1, k);
      assert s[i..e] == [s[i]] + s[i + 1..e];
      e
  }

  /** A run is determined by where it starts. */
  lemma {:induction false} RunEndAt(s: Str, i: nat, e: nat, k: CharClass)
    requires i <= e <= |s|
    requires AllIn(s[i..e], k)
    requires e == |s| || !InClass(s[e], k)
    ensures RunEnd(s, i, k) == e
    decreases e - i
  {
    if i < e {
      assert s[i] == s[i..e][0];
      assert s[i + 1..e] == s[i..e][1..];
      RunEndAt(s, i + 1, e, k);
    }
  }

  predicate WellFormedPredicate(p: Predicate) {
    p.column != [] && AllIn(p.column, Word) &&
    p.op != [] && AllIn(p.op, OpChar) &&
    p.literal != [] && AllIn(p.literal, NonBlank)
  }

  /** The expression matched at position p. Each repetition is greedy; a
      word run and a blank run can only succeed at full length, since the
      next item cannot start with a word or blank character. The operator
      run may give back its last character when nothing non-blank follows
      it: that character then starts the literal. */
  function MatchAt(s: Str, p: nat): (r: Option<Predicate>)
    requires p <= |s|
    ensures r.Some? ==> WellFormedPredicate(r.value)
  {
    if p == |s| || !IsWordChar(s[p]) then None
    else
      var w := RunEnd(s, p, Word);
      var o := RunEnd(s, w, Blank);
      if o == |s| || !IsOpChar(s[o]) then None
      else
        var oe := RunEnd(s, o, OpChar);
        var v := RunEnd(s, oe, Blank);
        if v < |s| then
          Some(Predicate(s[p..w], s[o..oe], s[v..RunEnd(s, v, NonBlank)]))
        else if oe - o >= 2 then
          AllInShorter(s, o, oe, oe - 1, OpChar);
          assert InClass(s[oe - 1], OpChar);
          Some(Predicate(s[p..w], s[o..oe - 1], s[oe - 1..RunEnd(s, oe - 1, NonBlank)]))
        else None
  }

  /** std::regex_search: the match at the leftmost position that has one. */
  function Search(s: Str, p: nat): (r: Option<Predicate>)
    requires p <= |s|
    ensures r.Some? ==> WellFormedPredicate(r.value)
    decreases |s| - p
  {
    if p == |s| then None
    else if MatchAt(s, p).Some? then MatchAt(s, p)
    else Search(s, p + 1)
  }

  /** The search finds the match at the leftmost position, at or after the
      start, where the expression matches, and finds nothing exactly when
      it matches nowhere. */
  lemma {:induction false} SearchLeftmost(s: Str, p: nat)
    requires p <= |s|
    ensures Search(s, p).Some? ==>
              exists q :: p <= q <= |s| && MatchAt(s, q) == Search(s, p) &&
                          forall q' :: p <= q' < q ==> MatchAt(s, q').None?
    ensures Search(s, p).None? ==> forall q :: p <= q <= |s| ==> MatchAt(s, q).None?
    decreases |s| - p
  {
    if p < |s| && MatchAt(s, p).None? {
      SearchLeftmost(s, p + 1);
    }
  }

  /** The predicate found in a WHERE text, or None when nothing matches. */
  function ParseCondition(s: Str): (r: Option<Predicate>)
    ensures r.Some? ==> WellFormedPredicate(r.value)
  {
    Search(s, 0)
  }

  /** A predicate written `column op literal` with single blanks is read
      back as exactly its three parts. */
  lemma ParseSpaced(column: Str, op: Str, literal: Str)
    requires WellFormedPredicate(Predicate(column, op, literal))
    ensures ParseCondition(column + [' '] + op + [' '] + literal) == Some(Predicate(column, op, literal))
  {
    var s := column + [' '] + op + [' '] + literal;
    var a := |column|;
    var b := a + 1 + |op|;
    assert s[0..a] == column;
    assert s[a..a + 1] == [' '];
    assert s[a + 1..b] == op;
    assert s[b..b + 1] == [' '];
    assert s[b + 1..|s|] == literal;
    RunEndAt(s, 0, a, Word);
    RunEndAt(s, a, a + 1, Blank);
    RunEndAt(s, a + 1, b, OpChar);
    RunEndAt(s, b, b + 1, Blank);
    RunEndAt(s, b + 1, |s|, NonBlank);
    assert MatchAt(s, 0) == Some(Predicate(column, op, literal));
  }

  /** Without blanks an operator run swallows operator characters that
      follow it: "a==1" carries the operator "==", which no branch knows. */
  lemma DoubleEqualsIsOneOperator()
    ensures ParseCondition("a==1") == Some(Predicate("a", "==", "1"))
  {
    var s: Str := "a==1";
    RunEndAt(s, 0, 1, Word);
    RunEndAt(s, 1, 1, Blank);
    RunEndAt(s, 1, 3, OpChar);
    RunEndAt(s, 3, 3, Blank);
    RunEndAt(s, 3, 4, NonBlank);
    assert s[0..1] == "a" && s[1..3] == "==" && s[3..4] == "1";
    assert MatchAt(s, 0) == Some(Predicate("a", "==", "1"));
  }

  /** The first column with the given name (the search loops of
      CRT.cpp:86-92 and 418-424). */
  function ColumnIndex(columns: seq<Column>, name: Str): (r: Option<nat>)
    ensures r.Some? ==> r.value < |columns| && columns[r.value].name == name
    ensures r.Some? ==> forall j :: 0 <= j < r.value ==> columns[j].name != name
    ensures r.None? ==> forall j :: 0 <= j < |columns| ==> columns[j].name != name
  {
    if columns == [] then None
    else if columns[0].name == name then Some(0)
    else match ColumnIndex(columns[1..], name)
      case None => None
      case Some(i) => Some(i + 1)
  }

  /** The column search as the original runs it: index -1 for "absent". */
  method FindColumn(columns: seq<Column>, name: Str) returns (index: int)
    ensures -1 <= index < |columns|
    ensures index >= 0 ==> columns[index].name == name
    ensures index >= 0 ==> forall j :: 0 <= j < index ==> columns[j].name != name
    ensures index == -1 ==> forall j :: 0 <= j < |columns| ==> columns[j].name != name
    ensures index == -1 <==> ColumnIndex(columns, name).None?
    ensures index >= 0 ==> ColumnIndex(columns, name) == Some(index as nat)
  {
    index := -1;
    var i := 0;
    while i < |columns|
      invariant 0 <= i <= |columns|
      invariant forall j :: 0 <= j < i ==> columns[j].name != name
    {
      if columns[i].name == name {
        index := i;
        return;
      }
      i := i + 1;
    }
  }

  /** The operator branches (CRT.cpp:98-113): `=` and `!=` compare the
      stored text with the literal; the four orderings hold only when both
      sides are numbers and then compare their values. */
  function Compare(op: Str, stored: Str, lit: Str): (r: bool)
    ensures op !in Operators ==> !r
    ensures op in OrderingOperators && r ==> IsNumber(stored) && IsNumber(lit)
    ensures op == ">" ==> (r <==> IsNumber(stored) && IsNumber(lit) && NumeralValue(stored) > NumeralValue(lit))
    ensures op == "<" ==> (r <==> IsNumber(stored) && IsNumber(lit) && NumeralValue(stored) < NumeralValue(lit))
    ensures op == ">=" ==> (r <==> IsNumber(stored) && IsNumber(lit) && NumeralValue(stored) >= NumeralValue(lit))
    ensures op == "<=" ==> (r <==> IsNumber(stored) && IsNumber(lit) && NumeralValue(stored) <= NumeralValue(lit))
  {
    if op == "=" then stored == lit
    else if op == "!=" then stored != lit
    else if op == ">" then IsNumber(stored) && IsNumber(lit) && NumeralValue(stored) > NumeralValue(lit)
    else if op == "<" then IsNumber(stored) && IsNumber(lit) && NumeralValue(stored) < NumeralValue(lit)
    else if op == ">=" then IsNumber(stored) && IsNumber(lit) && NumeralValue(stored) >= NumeralValue(lit)
    else if op == "<=" then IsNumber(stored) && IsNumber(lit) && NumeralValue(stored) <= NumeralValue(lit)
    else false
  }

  /** A parsed predicate on one row: the literal loses surrounding quotes,
      an unknown column makes it false. A row shorter than its columns (only
      a loaded snapshot can hold one) is read out of range in the original;
      here the predicate is false for it. */
  function EvalPredicate(p: Predicate, row: Row, columns: seq<Column>): (r: bool)
    ensures r ==> ColumnIndex(columns, p.column).Some?
    ensures p.op !in Operators ==> !r
    ensures r ==> ColumnIndex(columns, p.column).value < |row.values|
    ensures r && p.op in OrderingOperators ==>
              IsNumber(row.values[ColumnIndex(columns, p.column).value]) && IsNumber(StripQuotes(p.literal))
    ensures ColumnIndex(columns, p.column).Some? && ColumnIndex(columns, p.column).value < |row.values| ==>
              var stored := row.values[ColumnIndex(columns, p.column).value];
              (p.op == "=" ==> (r <==> stored == StripQuotes(p.literal))) &&
              (p.op == "!=" ==> (r <==> stored != StripQuotes(p.literal))) &&
              (p.op in OrderingOperators ==> (r <==> Compare(p.op, stored, StripQuotes(p.literal))))
  {
    var lit := StripQuotes(p.literal);
    match ColumnIndex(columns, p.column)
    case None => false
    case Some(i) => i < |row.values| && Compare(p.op, row.values[i], lit)
  }

  /** evaluateCondition: an empty condition holds for every row; a condition
      in which no predicate is found holds for none. */
  function Evaluate(row: Row, columns: seq<Column>, condition: Str): (r: bool)
    ensures condition == [] ==> r
    ensures condition != [] && ParseCondition(condition).None? ==> !r
    ensures condition != [] && ParseCondition(condition).Some? ==>
              r == EvalPredicate(ParseCondition(condition).value, row, columns)
  {
    if condition == [] then true
    else match ParseCondition(condition)
      case None => false
      case Some(p) => EvalPredicate(p, row, columns)
  }

  /** On a found column, `!=` holds exactly where `=` does not. */
  lemma NotEqualsIsComplement(column: Str, literal: Str, row: Row, columns: seq<Column>)
    requires ColumnIndex(columns, column).Some? && ColumnIndex(columns, column).value < |row.values|
    ensures EvalPredicate(Predicate(column, "!=", literal), row, columns) ==
            !EvalPredicate(Predicate(column, "=", literal), row, columns)
  {
  }

  /** On numbers the orderings behave as on integers: `>=` is `>` or equal
      value, and `<` is the complement of `>=`. */
  lemma OrderingsOnNumbers(column: Str, literal: Str, row: Row, columns: seq<Column>)
    requires ColumnIndex(columns, column).Some? && ColumnIndex(columns, column).value < |row.values|
    requires IsNumber(row.values[ColumnIndex(columns, column).value]) && IsNumber(StripQuotes(literal))
    ensures EvalPredicate(Predicate(column, "<", literal), row, columns) ==
            !EvalPredicate(Predicate(column, ">=", literal), row, columns)
    ensures EvalPredicate(Predicate(column, ">=", literal), row, columns) ==
            (EvalPredicate(Predicate(column, ">", literal), row, columns) ||
             NumeralValue(row.values[ColumnIndex(columns, column).value]) == NumeralValue(StripQuotes(literal)))
  {
  }

  /** The evaluator as the original runs it, with the column search loop. */
  method EvaluateCondition(row: Row, columns: seq<Column>, condition: Str) returns (b: bool)
    ensures b == Evaluate(row, columns, condition)
  {
    if condition == [] {
      return true;
    }
    match ParseCondition(condition)
    case None =>
      b := false;
    case Some(p) =>
      var lit := StripQuotes(p.literal);
      var index := FindColumn(columns, p.column);
      if index == -1 {
        b := false;
      } else {
        b := index < |row.values| && Compare(p.op, row.values[index], lit);
      }
  }
}
