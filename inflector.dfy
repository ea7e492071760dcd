/** CakePHP's Inflector::camelize and Inflector::underscore on ASCII word
    characters, the two conversions between a migration's file-name part and
    its class name. */
module Inflector {
  import opened Text

  /** camelize: '_' becomes a word break (str_replace '_' -> ' '), ucwords
      upper-cases the first letter of every word, and the breaks are removed. */
  function CamelizeFrom(w: string, atWordStart: bool): string
  {
    if w == [] then []
    else if w[0] == '_' then CamelizeFrom(w[1..], true)
    else [if atWordStart then Upper(w[0]) else w[0]] + CamelizeFrom(w[1..], false)
  }

  function Camelize(w: string): string
  {
    CamelizeFrom(w, true)
  }

  /** underscore: put '_' before every capital that follows a word character
      (the pattern /(?<=\w)([A-Z])/), then lower-case everything. */
  function UnderscoreFrom(c: string, afterWordChar: bool): string
  {
    if c == [] then []
    else
      var mark := if IsUpper(c[0]) && afterWordChar then "_" else "";
      mark + [Lower(c[0])] + UnderscoreFrom(c[1..], IsWordChar(c[0]))
  }

  function Underscore(c: string): string
  {
    UnderscoreFrom(c, false)
  }

  /** The rest of a snake_case name: lower-case letters, digits and single
      underscores, each underscore followed by a lower-case letter. */
  predicate IsSnakeTail(w: string)
    decreases |w|
  {
    if w == [] then true
    else if w[0] == '_' then |w| > 1 && IsLower(w[1]) && IsSnakeTail(w[1..])
    else (IsLower(w[0]) || IsDigit(w[0])) && IsSnakeTail(w[1..])
  }

  /** A lower-case snake_case name such as "create_users_table". */
  predicate IsSnakeName(w: string)
  {
    |w| > 0 && IsLower(w[0]) && IsSnakeTail(w)
  }

  lemma {:induction false} UnderscoreCamelizeTail(w: string)
    requires IsSnakeTail(w)
    ensures UnderscoreFrom(CamelizeFrom(w, false), true) == w
    decreases |w|
  {
    if w == [] {
    } else if w[0] == '_' {
      var rest := w[2..];
      assert w[1..][1..] == rest;
      UnderscoreCamelizeTail(rest);
      assert CamelizeFrom(w, false) == [Upper(w[1])] + CamelizeFrom(rest, false);
      UnderscoreAfterWord(Upper(w[1]), CamelizeFrom(rest, false));
      assert w == ['_', w[1]] + rest;
    } else {
      var rest := w[1..];
      UnderscoreCamelizeTail(rest);
      UnderscoreAfterWord(w[0], CamelizeFrom(rest, false));
      assert w == [w[0]] + rest;
    }
  }

  /** underscore after a word character: a capital gets its '_' and is
      lowered, a lower-case letter or digit is kept. */
  lemma UnderscoreAfterWord(c: char, rest: string)
    requires IsUpper(c) || IsLower(c) || IsDigit(c)
    ensures IsUpper(c) ==> UnderscoreFrom([c] + rest, true) == "_" + [Lower(c)] + UnderscoreFrom(rest, true)
    ensures !IsUpper(c) ==> UnderscoreFrom([c] + rest, true) == [c] + UnderscoreFrom(rest, true)
  {
    var s := [c] + rest;
    assert s[0] == c && s[1..] == rest;
  }

  /** For snake_case names the two conversions are inverse: underscore gives
      back the name camelize started from. */
  lemma UnderscoreCamelize(w: string)
    requires IsSnakeName(w)
    ensures Underscore(Camelize(w)) == w
  {
    var rest := w[1..];
    UnderscoreCamelizeTail(rest);
    var c := Camelize(w);
    assert c == [Upper(w[0])] + CamelizeFrom(rest, false);
    assert c[0] == Upper(w[0]) && c[1..] == CamelizeFrom(rest, false);
    assert UnderscoreFrom(c, false) == [w[0]] + rest;
    assert w == [w[0]] + rest;
  }

  /** A digit after an underscore is not restored: camelize("add_2fa") is
      "Add2fa", which underscores to "add2fa". */
  lemma DigitAfterUnderscoreIsLost()
    ensures Camelize("add_2fa") == "Add2fa"
    ensures Underscore("Add2fa") == "add2fa"
  {
  }
}
