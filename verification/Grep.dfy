/** The matcher of user/grep.c against the language its patterns denote. Patterns and texts are C strings
    without their NUL, so running past the end is reading NUL. */
module Grep {

  type Text = s: seq<char> | '\0' !in s

  datatype Item = One(c: char) | Star(c: char)

  /** A pattern after its ^: the items, and whether a final $ ties the match to the end of the text. */
  datatype Pattern = Pattern(items: seq<Item>, atEnd: bool)

  function Parse(re: Text): (p: Pattern) {
    if re == [] then Pattern([], false)
    else if |re| >= 2 && re[1] == '*' then
      var rest := Parse(re[2..]);
      Pattern([Star(re[0])] + rest.items, rest.atEnd)
    else if re == "$" then Pattern([], true)
    else
      var rest := Parse(re[1..]);
      Pattern([One(re[0])] + rest.items, rest.atEnd)
  }

  /** The characters a pattern character stands for. */
  predicate Stands(c: char, d: char) {
    c == '.' || c == d
  }

  predicate AllStand(c: char, s: seq<char>) {
    forall i | 0 <= i < |s| :: Stands(c, s[i])
  }

  /** s is in the language of one item. */
  predicate InItem(item: Item, s: seq<char>) {
    match item
    case One(c) => |s| == 1 && Stands(c, s[0])
    case Star(c) => AllStand(c, s)
  }

  /** The language of items one after another: s cut into pieces, each in the language of its item. */
  ghost predicate InLang(items: seq<Item>, s: seq<char>) {
    if items == [] then s == []
    else exists k: nat :: k <= |s| && InItem(items[0], s[..k]) && InLang(items[1..], s[k..])
  }

  /** Some piece of the text from place i on is in the pattern's language, reaching the end if it must. */
  ghost predicate At(p: Pattern, text: seq<char>, i: nat) {
    exists j: nat :: i <= j <= |text| && (p.atEnd ==> j == |text|) && InLang(p.items, text[i..j])
  }

  /** The meaning of a pattern with its ^ if it has one. */
  ghost predicate Means(re: Text, text: Text) {
    if re != [] && re[0] == '^' then At(Parse(re[1..]), text, 0)
    else exists i: nat :: i <= |text| && At(Parse(re), text, i)
  }

  lemma AtOne(c: char, p: Pattern, text: seq<char>)
    ensures At(Pattern([One(c)] + p.items, p.atEnd), text, 0) <==>
              text != [] && Stands(c, text[0]) && At(p, text[1..], 0)
  {
    var items := [One(c)] + p.items;
    assert items[1..] == p.items;
    if At(Pattern(items, p.atEnd), text, 0) {
      var j: nat :| j <= |text| && (p.atEnd ==> j == |text|) && InLang(items, text[0..j]);
      var s := text[0..j];
      var k: nat :| k <= |s| && InItem(items[0], s[..k]) && InLang(items[1..], s[k..]);
      assert k == 1 && s[..k][0] == text[0];
      assert s[1..] == text[1..][0..j - 1];
    }
    if text != [] && Stands(c, text[0]) && At(p, text[1..], 0) {
      var j: nat :| j <= |text[1..]| && (p.atEnd ==> j == |text[1..]|) && InLang(p.items, text[1..][0..j]);
      var s := text[0..j + 1];
      assert s[1..] == text[1..][0..j] && s[..1] == [text[0]];
      assert InItem(items[0], s[..1]) && InLang(items[1..], s[1..]);
      assert InLang(items, s);
    }
  }

  lemma AtStar(c: char, p: Pattern, text: seq<char>)
    ensures At(Pattern([Star(c)] + p.items, p.atEnd), text, 0) <==>
              exists k: nat :: k <= |text| && AllStand(c, text[..k]) && At(p, text[k..], 0)
  {
    var items := [Star(c)] + p.items;
    assert items[1..] == p.items;
    if At(Pattern(items, p.atEnd), text, 0) {
      var j: nat :| j <= |text| && (p.atEnd ==> j == |text|) && InLang(items, text[0..j]);
      var s := text[0..j];
      var k: nat :| k <= |s| && InItem(items[0], s[..k]) && InLang(items[1..], s[k..]);
      assert s[..k] == text[..k] && s[k..] == text[k..][0..j - k];
      assert At(p, text[k..], 0);
    }
    if k: nat :| k <= |text| && AllStand(c, text[..k]) && At(p, text[k..], 0) {
      var j: nat :| j <= |text[k..]| && (p.atEnd ==> j == |text[k..]|) && InLang(p.items, text[k..][0..j]);
      var s := text[0..k + j];
      assert s[k..] == text[k..][0..j] && s[..k] == text[..k];
      assert InItem(items[0], s[..k]) && InLang(items[1..], s[k..]);
      assert InLang(items, s);
    }
  }

  lemma AtEmpty(atEnd: bool, text: seq<char>)
    ensures At(Pattern([], atEnd), text, 0) <==> (atEnd ==> text == [])
  {
    if atEnd ==> text == [] {
      assert text[0..0] == [];
      assert InLang([], text[0..0]);
    }
  }

  lemma AtLater(p: Pattern, text: seq<char>, i: nat)
    requires i <= |text|
    ensures At(p, text, i) <==> At(p, text[i..], 0)
  {
    if At(p, text, i) {
      var j: nat :| i <= j <= |text| && (p.atEnd ==> j == |text|) && InLang(p.items, text[i..j]);
      assert text[i..j] == text[i..][0..j - i];
    }
    if At(p, text[i..], 0) {
      var j: nat :| j <= |text[i..]| && (p.atEnd ==> j == |text[i..]|) && InLang(p.items, text[i..][0..j]);
      assert text[i..][0..j] == text[i..i + j];
    }
  }

  lemma Prefix(c: char, text: seq<char>, k: nat)
    requires k <= |text|
    ensures AllStand(c, text[..k]) <==> forall i | 0 <= i < k :: Stands(c, text[i])
  {
    assert forall i | 0 <= i < k :: text[..k][i] == text[i];
  }

  /** matchhere: does a piece from the start of the text belong to the pattern? */
  method MatchHere(re: Text, text: Text) returns (r: bool)
    ensures r <==> At(Parse(re), text, 0)
    decreases |re|, 0
  {
    if re == [] {
      AtEmpty(false, text);
      return true;
    }
    if |re| >= 2 && re[1] == '*' {
      AtStar(re[0], Parse(re[2..]), text);
      r := MatchStar(re[0], re[2..], text);
      return;
    }
    if re == "$" {
      AtEmpty(true, text);
      return text == [];
    }
    AtOne(re[0], Parse(re[1..]), text);
    if text != [] && (re[0] == '.' || re[0] == text[0]) {
      r := MatchHere(re[1..], text[1..]);
      return;
    }
    return false;
  }

  /** matchstar: some number of characters c stands for, and then the rest of the pattern. */
  method MatchStar(c: char, re: Text, text: Text) returns (r: bool)
    ensures r <==> exists k: nat :: k <= |text| && AllStand(c, text[..k]) && At(Parse(re), text[k..], 0)
    decreases |re|, 1
  {
    var t: nat := 0;
    while true
      invariant t <= |text| && AllStand(c, text[..t])
      invariant forall k: nat | k < t :: !At(Parse(re), text[k..], 0)
      decreases |text| - t
    {
      var here := MatchHere(re, text[t..]);
      if here { return true; }
      if t == |text| || !(text[t] == c || c == '.') { break; }
      assert text[..t + 1] == text[..t] + [text[t]];
      t := t + 1;
    }
    forall k: nat | k <= |text|
      ensures AllStand(c, text[..k]) ==> k <= t
    {
      Prefix(c, text, k);
    }
    return false;
  }

  /** match: 1 exactly when the pattern's meaning says so. */
  method Match(re: Text, text: Text) returns (r: bool)
    ensures r <==> Means(re, text)
  {
    if re != [] && re[0] == '^' {
      r := MatchHere(re[1..], text);
      return;
    }
    var t: nat := 0;
    while true
      invariant t <= |text| && forall i: nat | i < t :: !At(Parse(re), text, i)
      decreases |text| - t
    {
      AtLater(Parse(re), text, t);
      var here := MatchHere(re, text[t..]);
      if here { return true; }
      if t == |text| { break; }
      t := t + 1;
    }
    return false;
  }
}
