/**
 * `CaseComparison`: how the two shadowing transformations differ. The one of
 * the `brt` package compares callee names regardless of case, the one of the
 * `external` package compares them exactly.
 */
module CaseComparison {
  import opened FuncPrefix
  import opened JavaUtil
  import opened BrtAddFuncPrefix

  /**
   * The two transformations differ on case. Configured with `EXP:Log`, the
   * one of the `brt` package keeps the names `exp` and `log` and shadows a
   * call of `Exp`; given the names `exp` and `log`, the one of the `external`
   * package shadows `exp` but not `EXP`.
   */
  lemma CaseDecides()
    ensures ParseNames("EXP:Log") == {"exp", "log"}
    ensures MatchKey("Exp", true) in ParseNames("EXP:Log")
    ensures MatchKey("exp", false) in {"exp", "log"} && MatchKey("EXP", false) !in {"exp", "log"}
  {
    var e, l, m := ToLower("EXP"), ToLower("Log"), ToLower("Exp");
    assert e[0] == 'e' && e[1] == 'x' && e[2] == 'p';
    assert l[0] == 'l' && l[1] == 'o' && l[2] == 'g';
    assert m[0] == 'e' && m[1] == 'x' && m[2] == 'p';
    assert e == "exp" && l == "log" && m == "exp";
    ParseNamesJoin(["EXP", "Log"]);
    assert Join(["EXP", "Log"], ':') == "EXP:Log";
    assert (set n | n in ["EXP", "Log"] :: ToLower(n)) == {"exp", "log"};
    assert "EXP"[0] != "exp"[0] && "EXP"[0] != "log"[0];
  }
}
