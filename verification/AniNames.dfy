/**
  The two name conversions of the `ani` attribute macro: struct fields from snake_case to camelCase,
  enum variants from CamelCase to SNAKE_CASE.  Both end the name with a NUL for the C side.  Letters
  are ASCII letters here.
*/
module AniNames {
  import opened Sequences

  predicate IsLower(c: char) { 'a' <= c <= 'z' }
  predicate IsUpper(c: char) { 'A' <= c <= 'Z' }
  predicate IsLetter(c: char) { IsLower(c) || IsUpper(c) }

  function ToUpper(c: char): char { if IsLower(c) then c - 'a' + 'A' else c }
  function ToLower(c: char): char { if IsUpper(c) then c - 'A' + 'a' else c }

  function Upper(s: string): string {
    if s == [] then [] else [ToUpper(s[0])] + Upper(s[1..])
  }

  // ---------------------------------------------------------------- the two loops

  // What the field loop pushes for the rest s of a name.
  function Camel(s: string, capitalize: bool): string {
    if s == [] then []
    else if s[0] == '_' then Camel(s[1..], true)
    else [if capitalize then ToUpper(s[0]) else s[0]] + Camel(s[1..], false)
  }

  // What the variant loop pushes for the rest s of a name; first says that s is the whole name.
  function Snake(s: string, first: bool): string {
    if s == [] then [] else SnakeHead(s[0], first) + Snake(s[1..], false)
  }

  function SnakeHead(ch: char, first: bool): string {
    (if !first && IsUpper(ch) then "_" else "") + [ToLower(ch)]
  }

  lemma {:induction false} CamelSnoc(s: string, i: nat, cap: bool)
    requires i < |s|
    ensures Camel(s[..i + 1], cap) == Camel(s[..i], cap) + Camel([s[i]], Pending(s[..i], cap))
    decreases i
  {
    if i == 0 {
      assert s[..1] == [s[0]] && s[..0] == [];
    } else {
      assert s[..i + 1][1..] == s[1..][..i] && s[..i][1..] == s[1..][..i - 1];
      CamelSnoc(s[1..], i - 1, if s[0] == '_' then true else false);
    }
  }

  // The capitalize flag after s.
  function Pending(s: string, cap: bool): bool {
    if s == [] then cap else Pending(s[1..], s[0] == '_')
  }

  lemma {:induction false} PendingSnoc(s: string, i: nat, cap: bool)
    requires i < |s|
    ensures Pending(s[..i + 1], cap) == (s[i] == '_')
    decreases i
  {
    if i == 0 {
      assert s[..1] == [s[0]] && [s[0]][1..] == [];
    } else {
      assert s[..i + 1][1..] == s[1..][..i];
      PendingSnoc(s[1..], i - 1, s[0] == '_');
    }
  }

  method FieldName(ident: string) returns (camel: string)
    ensures camel == Camel(ident, false) + "\0"
  {
    camel := "";
    var capitalize := false;
    assert ident[..0] == [];
    for i := 0 to |ident|
      invariant camel == Camel(ident[..i], false) && capitalize == Pending(ident[..i], false)
    {
      CamelSnoc(ident, i, false);
      PendingSnoc(ident, i, false);
      var ch := ident[i];
      assert [ch][1..] == [];
      if ch == '_' {
        capitalize := true;
      } else if capitalize {
        camel := camel + [ToUpper(ch)];
        capitalize := false;
      } else {
        camel := camel + [ch];
      }
    }
    assert ident[..|ident|] == ident;
    camel := camel + "\0";
  }

  // A sequence is its first part and the rest, however the rest is cut.
  lemma Regroup(head: string, a: string, b: string)
    ensures head + (a + b) == (head + a) + b
  {
  }

  lemma SnakeUnfold(s: string, first: bool)
    requires s != []
    ensures Snake(s, first) == SnakeHead(s[0], first) + Snake(s[1..], false)
  {
  }

  lemma {:induction false} SnakeSnoc(s: string, i: nat, first: bool)
    requires i < |s|
    ensures Snake(s[..i + 1], first) == Snake(s[..i], first) + Snake([s[i]], first && i == 0)
    decreases i
  {
    if i == 0 {
      assert s[..1] == [s[0]] && s[..0] == [];
    } else {
      SnakeUnfold(s[..i + 1], first);
      SnakeUnfold(s[..i], first);
      hide Snake, SnakeHead;
      assert s[..i + 1][1..] == s[1..][..i] && s[..i][1..] == s[1..][..i - 1];
      SnakeSnoc(s[1..], i - 1, false);
      Regroup(SnakeHead(s[0], first), Snake(s[1..][..i - 1], false), Snake([s[i]], false));
    }
  }

  method VariantName(ident: string) returns (name: string)
    ensures name == Upper(Snake(ident, true)) + "\0"
  {
    var snake := "";
    assert ident[..0] == [];
    for i := 0 to |ident|
      invariant snake == Snake(ident[..i], true)
    {
      SnakeSnoc(ident, i, true);
      var ch := ident[i];
      assert [ch][1..] == [];
      if i > 0 && IsUpper(ch) {
        snake := snake + "_";
      }
      snake := snake + [ToLower(ch)];
    }
    assert ident[..|ident|] == ident;
    name := Upper(snake) + "\0";
  }

  // ---------------------------------------------------------------- when the loops undo each other

  // Position i of a name: an underscore stands between a character and a letter, and an upper case
  // letter stands at the start or after an underscore.
  predicate FineAt(s: string, i: nat)
    requires i < |s|
  {
    && (s[i] == '_' ==> i > 0 && i + 1 < |s| && IsLetter(s[i + 1]))
    && (IsUpper(s[i]) && i > 0 ==> s[i - 1] == '_')
  }

  predicate FineFrom(s: string, k: nat) { forall i :: k <= i < |s| ==> FineAt(s, i) }

  predicate Reversible(s: string) { FineFrom(s, 0) }

  // The composition of both conversions, as one pass: started says that something was emitted.
  function Both(s: string, started: bool, cap: bool): string {
    if s == [] then []
    else if s[0] == '_' then Both(s[1..], started, true)
    else
      var c := if cap then ToUpper(s[0]) else s[0];
      (if started && IsUpper(c) then "_" else "") + [ToUpper(c)] + Both(s[1..], true, false)
  }

  lemma {:induction false} UpperAppend(a: string, b: string)
    ensures Upper(a + b) == Upper(a) + Upper(b)
    decreases |a|
  {
    if a == [] {
      assert a + b == b;
    } else {
      assert (a + b)[1..] == a[1..] + b;
      UpperAppend(a[1..], b);
    }
  }

  lemma {:induction false} BothIsComposition(s: string, started: bool, cap: bool)
    ensures Upper(Snake(Camel(s, cap), !started)) == Both(s, started, cap)
    decreases |s|
  {
    if s != [] {
      if s[0] == '_' {
        BothIsComposition(s[1..], started, true);
      } else {
        var c := if cap then ToUpper(s[0]) else s[0];
        var rest := Camel(s[1..], false);
        BothIsComposition(s[1..], true, false);
        assert Camel(s, cap)[1..] == rest;
        var sep := if started && IsUpper(c) then "_" else "";
        UpperAppend(sep + [ToLower(c)], Snake(rest, false));
        UpperAppend(sep, [ToLower(c)]);
        assert Upper([ToLower(c)]) == [ToUpper(c)] by { assert [ToLower(c)][1..] == []; }
        assert Upper("_") == "_" by { assert "_"[1..] == ""; }
      }
    }
  }

  // The same condition along the pass: before a character, and right after an underscore.
  predicate Good(s: string, started: bool) {
    if s == [] then true
    else if s[0] == '_' then started && GoodCap(s[1..])
    else (started ==> !IsUpper(s[0])) && Good(s[1..], true)
  }
  predicate GoodCap(s: string) {
    s != [] && IsLetter(s[0]) && Good(s[1..], true)
  }

  lemma {:induction false} GoodIff(t: string, k: nat)
    requires k <= |t|
    ensures k == 0 || t[k - 1] != '_' ==> (Good(t[k..], k > 0) <==> FineFrom(t, k))
    ensures k > 0 && t[k - 1] == '_' ==> (GoodCap(t[k..]) <==> k < |t| && IsLetter(t[k]) && FineFrom(t, k))
    decreases |t| - k
  {
    if k < |t| {
      GoodIff(t, k + 1);
      assert t[k..][1..] == t[k + 1..];
      assert FineFrom(t, k) <==> FineAt(t, k) && FineFrom(t, k + 1);
    }
  }

  // The pass never emits two underscores in a row, and none at the start of a name.
  lemma {:induction false} NoDouble(s: string, started: bool)
    ensures var r := Both(s, started, true);
            && (|r| >= 2 && r[0] == '_' ==> r[1] != '_')
            && (r != [] && !started ==> r[0] != '_')
    decreases |s|
  {
    if s != [] && s[0] == '_' { NoDouble(s[1..], started); }
  }

  lemma {:induction false} BothIff(s: string, started: bool)
    ensures Both(s, started, false) == Upper(s) <==> Good(s, started)
    ensures Both(s, true, true) == "_" + Upper(s) <==> GoodCap(s)
    decreases |s|
  {
    if s != [] {
      var rest := s[1..];
      BothIff(rest, true);
      assert Upper(s) == [ToUpper(s[0])] + Upper(rest);
      NoDouble(rest, started);
      NoDouble(rest, true);
      if s[0] == '_' {
        assert ("_" + Upper(s))[1] == '_';
      } else {
        var c := ToUpper(s[0]);
        AppendInjective("_" + [c], Both(rest, true, false), Upper(rest));
        AppendInjective([c], Both(rest, true, false), Upper(rest));
        assert "_" + Upper(s) == ("_" + [c]) + Upper(rest);
        if IsLetter(s[0]) {
          assert Both(s, true, true) == "_" + [c] + Both(rest, true, false);
        } else {
          assert Both(s, true, true)[0] != '_';
        }
        if started && IsUpper(s[0]) {
          assert Both(s, started, false)[0] == '_';
        } else {
          assert Both(s, started, false) == [c] + Both(rest, true, false);
        }
      }
    }
  }

  // Converting a field name and then, as a variant, back gives the name in upper case iff the name
  // is reversible.
  lemma RoundTripIff(s: string)
    ensures Upper(Snake(Camel(s, false), true)) == Upper(s) <==> Reversible(s)
  {
    BothIsComposition(s, false, false);
    BothIff(s, false);
    GoodIff(s, 0);
    assert s[0..] == s;
  }

  // A snake_case name: segments that start with a lower case letter, joined by single underscores.
  predicate SnakeCase(s: string) {
    Reversible(s) && forall i :: 0 <= i < |s| ==> !IsUpper(s[i])
  }

  lemma {:induction false} UpperInjective(a: string, b: string)
    requires Upper(a) == Upper(b)
    requires forall i :: 0 <= i < |a| ==> !IsUpper(a[i])
    requires forall i :: 0 <= i < |b| ==> !IsUpper(b[i])
    ensures a == b
    decreases |a|
  {
    if a != [] {
      assert b != [];
      assert Upper(a)[0] == Upper(b)[0] && Upper(a)[1..] == Upper(b)[1..];
      UpperInjective(a[1..], b[1..]);
      assert a == [a[0]] + a[1..] && b == [b[0]] + b[1..];
    }
  }

  predicate SameFirst(a: string, b: string) {
    (a == [] <==> b == []) && (a != [] ==> a[0] == b[0])
  }

  lemma UpperHead(a: string, b: string)
    requires Upper(a) == Upper(b) && a != []
    ensures b != [] && ToUpper(a[0]) == ToUpper(b[0]) && Upper(a[1..]) == Upper(b[1..])
    ensures a[0] == '_' <==> b[0] == '_'
  {
    assert b != [];
    assert Upper(a)[0] == Upper(b)[0] && Upper(a)[1..] == Upper(b)[1..];
  }

  // Names that differ in case only, and not where the pass keeps the case, come out the same.
  lemma {:induction false} CaseIsLost(a: string, b: string, started: bool)
    requires Upper(a) == Upper(b)
    ensures Good(a, started) && Good(b, started) && (started || SameFirst(a, b)) ==>
              Camel(a, false) == Camel(b, false)
    ensures GoodCap(a) && GoodCap(b) ==> Camel(a, true) == Camel(b, true)
    decreases |a|
  {
    if a != [] {
      UpperHead(a, b);
      CaseIsLost(a[1..], b[1..], true);
    } else {
      assert |Upper(b)| == 0;
    }
  }

  lemma FirstKept(s: string)
    requires Reversible(s) && s != []
    ensures Camel(s, false) != [] && Camel(s, false)[0] == s[0]
  {
    assert FineAt(s, 0);
  }

  // Two reversible names come out the same iff they differ in case only, and not in their first
  // character.
  lemma FieldsCollideIff(a: string, b: string)
    requires Reversible(a) && Reversible(b)
    ensures Camel(a, false) == Camel(b, false) <==> Upper(a) == Upper(b) && SameFirst(a, b)
  {
    RoundTripIff(a);
    RoundTripIff(b);
    if a != [] { FirstKept(a); }
    if b != [] { FirstKept(b); }
    GoodIff(a, 0);
    GoodIff(b, 0);
    assert a[0..] == a && b[0..] == b;
    if Upper(a) == Upper(b) { CaseIsLost(a, b, false); }
  }

  // So no two snake_case fields get the same name.
  lemma FieldNamesDistinct(a: string, b: string)
    requires SnakeCase(a) && SnakeCase(b) && a != b
    ensures Camel(a, false) != Camel(b, false)
  {
    FieldsCollideIff(a, b);
    if Upper(a) == Upper(b) { UpperInjective(a, b); }
  }

  // ---------------------------------------------------------------- back from a variant

  lemma {:induction false} CamelHasNoUnderscore(s: string, cap: bool)
    ensures '_' !in Camel(s, cap)
    decreases |s|
  {
    if s != [] {
      CamelHasNoUnderscore(s[1..], true);
      CamelHasNoUnderscore(s[1..], false);
    }
  }

  // What the field loop makes of the piece the variant loop pushed for one character.
  lemma PieceBack(ch: char, first: bool, rest: string)
    requires ch != '_'
    ensures Camel(SnakeHead(ch, first) + rest, first && IsUpper(ch)) == [ch] + Camel(rest, false)
  {
    var l := ToLower(ch);
    assert ([l] + rest)[1..] == rest;
    if !first && IsUpper(ch) {
      assert (SnakeHead(ch, first) + rest)[1..] == [l] + rest;
    } else {
      assert SnakeHead(ch, first) + rest == [l] + rest;
    }
  }

  lemma {:induction false} SnakeBack(v: string, first: bool)
    requires '_' !in v
    ensures Camel(Snake(v, first), first && v != [] && IsUpper(v[0])) == v
    decreases |v|
  {
    if v != [] {
      SnakeBack(v[1..], false);
      SnakeUnfold(v, first);
      assert v[0] in v && v == [v[0]] + v[1..];
      hide Snake, Camel, SnakeHead;
      PieceBack(v[0], first, Snake(v[1..], false));
    }
  }

  // The field loop undoes the variant loop, once told whether the first letter is a capital, iff the
  // variant has no underscore of its own.
  lemma VariantBackIff(v: string)
    ensures Camel(Snake(v, true), v != [] && IsUpper(v[0])) == v <==> '_' !in v
  {
    CamelHasNoUnderscore(Snake(v, true), v != [] && IsUpper(v[0]));
    if '_' !in v { SnakeBack(v, true); }
  }

  function Capitals(s: string): nat {
    if s == [] then 0 else (if IsUpper(s[0]) then 1 else 0) + Capitals(s[1..])
  }

  // A variant name grows by one underscore for each capital after its first character.
  lemma {:induction false} SnakeLength(s: string, first: bool)
    ensures |Snake(s, first)| == |s| + Capitals(s) - (if first && s != [] && IsUpper(s[0]) then 1 else 0)
    decreases |s|
  {
    if s != [] { SnakeLength(s[1..], false); }
  }
}
