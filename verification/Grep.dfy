/** The regular-expression matcher of grep.c, against the language a pattern denotes. */
module Grep {
  // The language -------------------------------------------------------------------------------

  // A character, '.' standing for any; or any number of them.
  datatype Item = One(c: char) | Many(c: char)

  // A pattern behind its '^': its items in order, and whether a final '$' ties it to the text's end.
  datatype Pattern = Pattern(items: seq<Item>, toEnd: bool)

  predicate Fits(c: char, x: char) {
    c == '.' || c == x
  }

  ghost predicate InItem(item: Item, s: string) {
    match item
    case One(c) => |s| == 1 && Fits(c, s[0])
    case Many(c) => forall i | 0 <= i < |s| :: Fits(c, s[i])
  }

  /** s is made of one piece for each item, in order. */
  ghost predicate InLang(items: seq<Item>, s: string)
    decreases |items|
  {
    if items == [] then s == []
    else exists k :: 0 <= k <= |s| && InItem(items[0], s[..k]) && InLang(items[1..], s[k..])
  }

  function Parse(re: string): Pattern
    decreases |re|
  {
    if re == [] then Pattern([], false)
    else if |re| > 1 && re[1] == '*' then
      var p := Parse(re[2..]);
      p.(items := [Many(re[0])] + p.items)
    else if re == "$" then Pattern([], true)
    else
      var p := Parse(re[1..]);
      p.(items := [One(re[0])] + p.items)
  }

  /** Some beginning of the text is in the pattern's language. */
  ghost predicate Begins(p: Pattern, text: string) {
    exists k :: 0 <= k <= |text| && InLang(p.items, text[..k]) && (p.toEnd ==> k == |text|)
  }

  /** Some part of the text is in the pattern's language; '^' ties it to the text's beginning. */
  ghost predicate Matches(re: string, text: string) {
    if re != [] && re[0] == '^' then Begins(Parse(re[1..]), text)
    else exists i :: 0 <= i <= |text| && Begins(Parse(re), text[i..])
  }

  // The matcher ----------------------------------------------------------------------------------

  predicate MatchHere(re: string, text: string)
    decreases |re|, |text|, 0
  {
    if re == [] then true
    else if |re| > 1 && re[1] == '*' then MatchStar(re[0], re[2..], text)
    else if re == "$" then text == []
    else text != [] && Fits(re[0], text[0]) && MatchHere(re[1..], text[1..])
  }

  predicate MatchStar(c: char, re: string, text: string)
    decreases |re|, |text|, 1
  {
    MatchHere(re, text) || (text != [] && Fits(c, text[0]) && MatchStar(c, re, text[1..]))
  }

  predicate Match(re: string, text: string)
    decreases |text|
  {
    if re != [] && re[0] == '^' then MatchHere(re[1..], text)
    else MatchHere(re, text) || (text != [] && Match(re, text[1..]))
  }

  // Each decides its language ---------------------------------------------------------------------

  function WithMany(c: char, p: Pattern): Pattern {
    p.(items := [Many(c)] + p.items)
  }

  lemma Shifted(text: string, k: nat, j: nat)
    requires 0 < j <= k <= |text|
    ensures text[1..][..k - 1][..j - 1] == text[..k][..j][1..] && text[1..][..k - 1][j - 1..] == text[..k][j..]
  {
    assert text[1..][..k - 1] == text[1..k];
    assert text[1..k][..j - 1] == text[1..j] && text[1..k][j - 1..] == text[j..k];
    assert text[..k][..j][1..] == text[1..j] && text[..k][j..] == text[j..k];
  }

  lemma FirstPiece(c: char, items: seq<Item>, s: string) returns (j: nat)
    requires InLang([Many(c)] + items, s)
    ensures j <= |s| && InItem(Many(c), s[..j]) && InLang(items, s[j..])
  {
    assert ([Many(c)] + items)[1..] == items;
    j :| 0 <= j <= |s| && InItem(Many(c), s[..j]) && InLang(items, s[j..]);
  }

  lemma AddPiece(c: char, items: seq<Item>, s: string, j: nat)
    requires j <= |s| && InItem(Many(c), s[..j]) && InLang(items, s[j..])
    ensures InLang([Many(c)] + items, s)
  {
    assert ([Many(c)] + items)[1..] == items;
  }

  lemma ManyGives(c: char, p: Pattern, text: string)
    requires Begins(WithMany(c, p), text)
    ensures Begins(p, text) || (text != [] && Fits(c, text[0]) && Begins(WithMany(c, p), text[1..]))
  {
    hide InLang;
    var k :| 0 <= k <= |text| && InLang(WithMany(c, p).items, text[..k]) && (p.toEnd ==> k == |text|);
    var s := text[..k];
    var j := FirstPiece(c, p.items, s);
    if j == 0 {
      assert s[0..] == s;
      BeginsAt(p, text, k);
    } else {
      assert s[..j][0] == text[0];
      Shifted(text, k, j);
      AddPiece(c, p.items, text[1..][..k - 1], j - 1);
      BeginsAt(WithMany(c, p), text[1..], k - 1);
    }
  }

  lemma BeginsAt(p: Pattern, text: string, k: nat)
    requires k <= |text| && InLang(p.items, text[..k]) && (p.toEnd ==> k == |text|)
    ensures Begins(p, text)
  {
  }

  lemma ManyNone(c: char, p: Pattern, text: string)
    requires Begins(p, text)
    ensures Begins(WithMany(c, p), text)
  {
    var q := WithMany(c, p);
    assert q.items[1..] == p.items;
    var k :| 0 <= k <= |text| && InLang(p.items, text[..k]) && (p.toEnd ==> k == |text|);
    var s := text[..k];
    assert s[..0] == [] && s[0..] == s;
    assert InLang(q.items, s);
  }

  lemma ManyMore(c: char, p: Pattern, text: string)
    requires text != [] && Fits(c, text[0]) && Begins(WithMany(c, p), text[1..])
    ensures Begins(WithMany(c, p), text)
  {
    var q := WithMany(c, p);
    assert q.items[1..] == p.items;
    var k :| 0 <= k <= |text| - 1 && InLang(q.items, text[1..][..k]) && (p.toEnd ==> k == |text| - 1);
    var t := text[1..][..k];
    var j :| 0 <= j <= |t| && InItem(Many(c), t[..j]) && InLang(p.items, t[j..]);
    var s := text[..k + 1];
    assert s == [text[0]] + t;
    assert s[..j + 1] == [text[0]] + t[..j];
    assert s[j + 1..] == t[j..];
    assert InLang(q.items, s);
  }

  /** A beginning made by c* and the rest of a pattern: none of c, or one and again. */
  lemma {:induction false} BeginsMany(c: char, p: Pattern, text: string)
    ensures Begins(WithMany(c, p), text) <==>
      Begins(p, text) || (text != [] && Fits(c, text[0]) && Begins(WithMany(c, p), text[1..]))
  {
    hide Begins;
    if Begins(WithMany(c, p), text) {
      ManyGives(c, p, text);
    }
    if Begins(p, text) {
      ManyNone(c, p, text);
    }
    if text != [] && Fits(c, text[0]) && Begins(WithMany(c, p), text[1..]) {
      ManyMore(c, p, text);
    }
  }

  lemma {:induction false} BeginsOne(c: char, p: Pattern, text: string)
    ensures Begins(p.(items := [One(c)] + p.items), text) <==>
      text != [] && Fits(c, text[0]) && Begins(p, text[1..])
  {
    var q := p.(items := [One(c)] + p.items);
    assert q.items[1..] == p.items;
    if k :| 0 <= k <= |text| && InLang(q.items, text[..k]) && (p.toEnd ==> k == |text|) {
      var s := text[..k];
      var j :| 0 <= j <= |s| && InItem(One(c), s[..j]) && InLang(p.items, s[j..]);
      assert s[..j][0] == text[0] && s[1..] == text[1..][..k - 1];
    }
    if text != [] && Fits(c, text[0]) && Begins(p, text[1..]) {
      var k :| 0 <= k <= |text| - 1 && InLang(p.items, text[1..][..k]) && (p.toEnd ==> k == |text| - 1);
      var s := text[..k + 1];
      assert s[..1] == [text[0]] && s[1..] == text[1..][..k];
      assert InLang(q.items, s);
    }
  }

  lemma {:induction false} HereIff(re: string, text: string)
    ensures MatchHere(re, text) <==> Begins(Parse(re), text)
    decreases |re|, |text|, 0
  {
    if re == [] {
      assert text[..0] == [];
    } else if |re| > 1 && re[1] == '*' {
      StarIff(re[0], re[2..], text);
    } else if re == "$" {
      assert text == [] ==> text[..0] == [];
    } else {
      BeginsOne(re[0], Parse(re[1..]), text);
      if text != [] {
        HereIff(re[1..], text[1..]);
      }
    }
  }

  lemma {:induction false} StarIff(c: char, re: string, text: string)
    ensures MatchStar(c, re, text) <==> Begins(WithMany(c, Parse(re)), text)
    decreases |re|, |text|, 1
  {
    BeginsMany(c, Parse(re), text);
    HereIff(re, text);
    if text != [] {
      StarIff(c, re, text[1..]);
    }
  }

  /** match accepts exactly the texts that have a part in the pattern's language. */
  lemma {:induction false} MatchIff(re: string, text: string)
    ensures Match(re, text) <==> Matches(re, text)
    decreases |text|
  {
    if re != [] && re[0] == '^' {
      HereIff(re[1..], text);
    } else {
      HereIff(re, text);
      if text != [] {
        MatchIff(re, text[1..]);
        if i :| 0 <= i <= |text| && Begins(Parse(re), text[i..]) {
          assert i > 0 ==> text[1..][i - 1..] == text[i..];
        }
        if i :| 0 <= i <= |text| - 1 && Begins(Parse(re), text[1..][i..]) {
          assert text[i + 1..] == text[1..][i..];
        }
      }
      assert text[0..] == text;
    }
  }

  // The code: strings end at a NUL ------------------------------------------------------------------

  /** The string that starts at b[i]. */
  function Str(b: string, i: nat): (s: string)
    requires i < |b| && b[|b| - 1] == '\0'
    ensures |s| < |b| - i && forall j | 0 <= j < |s| :: s[j] == b[i + j] != '\0'
    ensures b[i + |s|] == '\0'
    decreases |b| - i
  {
    if b[i] == '\0' then [] else [b[i]] + Str(b, i + 1)
  }

  /** A NUL-terminated buffer. */
  predicate Buffer(b: string, i: nat) {
    i < |b| && b[|b| - 1] == '\0'
  }

  /** What the matcher sees of a string through its pointer. */
  lemma Peek(b: string, i: nat)
    requires Buffer(b, i)
    ensures b[i] == '\0' <==> Str(b, i) == []
    ensures b[i] != '\0' ==> Buffer(b, i + 1) && Str(b, i)[0] == b[i] && Str(b, i)[1..] == Str(b, i + 1)
    ensures b[i] != '\0' && b[i + 1] != '\0' ==>
      Buffer(b, i + 2) && |Str(b, i)| > 1 && Str(b, i)[1] == b[i + 1] && Str(b, i)[2..] == Str(b, i + 2)
    ensures b[i] != '\0' && b[i + 1] == '\0' ==> Str(b, i) == [b[i]]
  {
  }

  method Matchhere(re: string, r: nat, text: string, t: nat) returns (b: bool)
    requires Buffer(re, r) && Buffer(text, t)
    ensures b == MatchHere(Str(re, r), Str(text, t))
    decreases |re| - r, |text| - t, 0
  {
    Peek(re, r);
    Peek(text, t);
    if re[r] == '\0' {
      return true;
    }
    if re[r + 1] == '*' {
      b := Matchstar(re[r], re, r + 2, text, t);
      return;
    }
    if re[r] == '$' && re[r + 1] == '\0' {
      return text[t] == '\0';
    }
    if text[t] != '\0' && (re[r] == '.' || re[r] == text[t]) {
      b := Matchhere(re, r + 1, text, t + 1);
      return;
    }
    return false;
  }

  method Matchstar(c: char, re: string, r: nat, text: string, t: nat) returns (b: bool)
    requires Buffer(re, r) && Buffer(text, t)
    ensures b == MatchStar(c, Str(re, r), Str(text, t))
    decreases |re| - r, |text| - t, 1
  {
    var u := t;
    while true
      invariant t <= u && Buffer(text, u)
      invariant MatchStar(c, Str(re, r), Str(text, t)) == MatchStar(c, Str(re, r), Str(text, u))
      decreases |text| - u
    {
      Peek(text, u);
      b := Matchhere(re, r, text, u);
      if b {
        return;
      }
      if !(text[u] != '\0' && (text[u] == c || c == '.')) {
        return false;
      }
      u := u + 1;
    }
  }

  method MatchText(re: string, text: string) returns (b: bool)
    requires Buffer(re, 0) && Buffer(text, 0)
    ensures b == Match(Str(re, 0), Str(text, 0))
    ensures b <==> Matches(Str(re, 0), Str(text, 0))
  {
    MatchIff(Str(re, 0), Str(text, 0));
    Peek(re, 0);
    if re[0] == '^' {
      b := Matchhere(re, 1, text, 0);
      return;
    }
    var u := 0;
    while true
      invariant Buffer(text, u) && Match(Str(re, 0), Str(text, 0)) == Match(Str(re, 0), Str(text, u))
      decreases |text| - u
    {
      Peek(text, u);
      b := Matchhere(re, 0, text, u);
      if b {
        return;
      }
      if text[u] == '\0' {
        return false;
      }
      u := u + 1;
    }
  }
}
