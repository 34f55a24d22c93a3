/** The allow-lists the schema enforcement and the filter compiler rely on:
    the SQL type to Python cast table, the operators each SQL type may be
    filtered with, and the SQL fragment each operator compiles to. */
module Settings {
  import opened Strings

  /** The Python type a SQL type casts to; `NoCast` stands for `None`. */
  datatype PyType = PyStr | PyInt | PyFloat | NoCast

  const DTYPES: map<string, PyType> :=
    map["TEXT" := PyStr, "INTEGER" := PyInt, "REAL" := PyFloat, "DATETIME" := NoCast]

  const NUMERIC_OPS: set<string> := {"eq", "neq", "lt", "lte", "gt", "gte"}

  const VALID_OPS: map<string, set<string>> :=
    map["INTEGER" := NUMERIC_OPS, "REAL" := NUMERIC_OPS, "TEXT" := {"eq", "neq", "like"}]

  const OP_SQL: map<string, string> :=
    map["eq" := "= ?", "neq" := "<> ?",
        "lt" := "< ?", "lte" := "<= ?",
        "gt" := "> ?", "gte" := ">= ?",
        "like" := "LIKE ?"]

  /** The SQL comparison symbols an operator fragment may start with. */
  const SQL_COMPARATORS: set<string> := {"=", "<>", "<", "<=", ">", ">=", "LIKE"}

  /** Both numeric types accept exactly the six comparisons, and `like` is
      accepted for no numeric type. */
  lemma NumericOperators()
    ensures VALID_OPS["INTEGER"] == {"eq", "neq", "lt", "lte", "gt", "gte"}
    ensures VALID_OPS["REAL"] == {"eq", "neq", "lt", "lte", "gt", "gte"}
    ensures forall t :: t in VALID_OPS && "like" in VALID_OPS[t] ==> t == "TEXT"
  {
  }

  lemma TextOperators()
    ensures VALID_OPS["TEXT"] == {"eq", "neq", "like"}
  {
  }

  /** No comparison symbol holds a placeholder. */
  lemma ComparatorsQuestionFree()
    ensures forall sym :: sym in SQL_COMPARATORS ==> '?' !in sym
  {
  }

  /** The comparison symbol an operator's fragment starts with. */
  function FragmentSymbol(op: string): (sym: string)
    requires op in OP_SQL
    ensures sym in SQL_COMPARATORS && OP_SQL[op] == sym + " ?"
  {
    if op == "eq" then "="
    else if op == "neq" then "<>"
    else if op == "lt" then "<"
    else if op == "lte" then "<="
    else if op == "gt" then ">"
    else if op == "gte" then ">="
    else "LIKE"
  }

  /** Every operator any type allows compiles to a fragment made of a SQL
      comparison symbol, a space and one `?` placeholder: no literal ever
      enters the SQL text. */
  lemma OperatorFragments()
    ensures forall t, op :: t in VALID_OPS && op in VALID_OPS[t] ==> op in OP_SQL
    ensures forall op :: op in OP_SQL ==>
              CountChar(OP_SQL[op], '?') == 1 &&
              exists sym :: sym in SQL_COMPARATORS && OP_SQL[op] == sym + " ?"
  {
    ComparatorsQuestionFree();
    forall op | op in OP_SQL
      ensures CountChar(OP_SQL[op], '?') == 1
      ensures exists sym :: sym in SQL_COMPARATORS && OP_SQL[op] == sym + " ?"
    {
      var sym := FragmentSymbol(op);
      assert sym in SQL_COMPARATORS;
      assert sym + " ?" == (sym + " ") + ['?'] + "";
      CountCharOnce(sym + " ", "", '?');
    }
  }

  /** The cast table covers the four SQL types; DATETIME casts to nothing
      and has no operator entry, so it cannot be filtered on. */
  lemma TypeTables()
    ensures DTYPES.Keys == {"TEXT", "INTEGER", "REAL", "DATETIME"}
    ensures DTYPES["DATETIME"] == NoCast
    ensures VALID_OPS.Keys < DTYPES.Keys && "DATETIME" !in VALID_OPS
  {
  }
}
