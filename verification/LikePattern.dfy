/** The ILIKE patterns the filters build by putting `%` around a value that is not escaped, and
    what they match: the value's own `%`, `_` and backslash keep their pattern meaning. */
module LikePattern {

  function Fold(c: char): char {
    if 'A' <= c <= 'Z' then (c as int + 32) as char else c
  }

  predicate Same(a: char, b: char) {
    Fold(a) == Fold(b)
  }

  /** Characters match when they are equal or the two cases of one ASCII letter. */
  lemma SameIsCase(a: char, b: char)
    ensures Same(a, b) <==> a == b || ('A' <= a <= 'Z' && b as int == a as int + 32) || ('A' <= b <= 'Z' && a as int == b as int + 32)
  {
  }

  predicate SameText(a: string, b: string) {
    |a| == |b| && forall i :: 0 <= i < |a| ==> Same(a[i], b[i])
  }

  /** `s ILIKE p`. A pattern that ends in an escape character matches nothing (Postgres rejects it). */
  predicate Like(s: string, p: string)
    decreases |p| + |s|
  {
    if p == "" then s == ""
    else if p[0] == '%' then Like(s, p[1..]) || (s != "" && Like(s[1..], p))
    else if p[0] == '_' then s != "" && Like(s[1..], p[1..])
    else if p[0] == '\\' then |p| > 1 && s != "" && Same(s[0], p[1]) && Like(s[1..], p[2..])
    else s != "" && Same(s[0], p[0]) && Like(s[1..], p[1..])
  }

  function ContainsPattern(v: string): string { "%" + v + "%" }

  function StartsWithPattern(v: string): string { v + "%" }

  function EndsWithPattern(v: string): string { "%" + v }

  predicate IsWildcard(c: char) {
    c == '%' || c == '_' || c == '\\'
  }

  predicate Plain(v: string) {
    forall i :: 0 <= i < |v| ==> !IsWildcard(v[i])
  }

  ghost predicate OccursAt(s: string, v: string, i: nat) {
    i + |v| <= |s| && SameText(s[i..i + |v|], v)
  }

  ghost predicate Contains(s: string, v: string) {
    exists i: nat :: OccursAt(s, v, i)
  }

  ghost predicate StartsWith(s: string, v: string) {
    OccursAt(s, v, 0)
  }

  ghost predicate EndsWith(s: string, v: string) {
    |v| <= |s| && OccursAt(s, v, |s| - |v|)
  }

  // ---------- plain values ----------

  lemma {:induction false} PlainPrefix(s: string, v: string, p: string)
    requires Plain(v)
    ensures Like(s, v + p) <==> StartsWith(s, v) && Like(s[|v|..], p)
  {
    if v == "" {
      assert v + p == p && s[0..] == s;
      assert OccursAt(s, v, 0);
    } else {
      assert !IsWildcard(v[0]);
      assert (v + p)[1..] == v[1..] + p;
      if s != "" {
        PlainPrefix(s[1..], v[1..], p);
        HeadAndTail(s, v);
        if |v| <= |s| {
          assert s[1..][|v| - 1..] == s[|v|..];
        }
      }
    }
  }

  lemma HeadAndTail(s: string, v: string)
    requires s != "" && v != ""
    ensures StartsWith(s, v) <==> Same(s[0], v[0]) && StartsWith(s[1..], v[1..])
  {
    if |v| <= |s| {
      var a := s[0..0 + |v|];
      var b := s[1..][0..0 + |v[1..]|];
      assert a[0] == s[0];
      assert forall i :: 0 <= i < |v| - 1 ==> b[i] == a[i + 1] && v[1..][i] == v[i + 1];
      if SameText(b, v[1..]) && Same(s[0], v[0]) {
        forall i | 0 <= i < |v| ensures Same(a[i], v[i]) {
          if i > 0 {
            assert Same(b[i - 1], v[1..][i - 1]);
          }
        }
      }
    }
  }

  lemma {:induction false} AnySuffix(s: string, p: string)
    ensures Like(s, "%" + p) <==> exists i: nat :: i <= |s| && Like(s[i..], p)
  {
    var q := "%" + p;
    assert q[1..] == p;
    assert s[0..] == s;
    if s != "" {
      AnySuffix(s[1..], p);
      if Like(s[1..], q) {
        var i: nat :| i <= |s[1..]| && Like(s[1..][i..], p);
        assert s[1..][i..] == s[i + 1..];
      }
      if i: nat :| 0 < i <= |s| && Like(s[i..], p) {
        assert s[i..] == s[1..][i - 1..];
      }
    } else {
      forall i: nat | i <= |s| ensures s[i..] == s {
      }
    }
  }

  lemma {:induction false} PercentMatchesAll(s: string)
    ensures Like(s, "%")
  {
    if s != "" {
      PercentMatchesAll(s[1..]);
    } else {
      assert Like("", "%"[1..]);
    }
  }

  lemma SuffixOccurrence(s: string, v: string, i: nat)
    requires i <= |s|
    ensures StartsWith(s[i..], v) <==> OccursAt(s, v, i)
  {
    if i + |v| <= |s| {
      assert s[i..][0..0 + |v|] == s[i..i + |v|];
    }
  }

  lemma PlainContains(s: string, v: string)
    requires Plain(v)
    ensures Like(s, ContainsPattern(v)) <==> Contains(s, v)
  {
    assert ContainsPattern(v) == "%" + (v + "%");
    AnySuffix(s, v + "%");
    forall i: nat | i <= |s| ensures Like(s[i..], v + "%") <==> OccursAt(s, v, i) {
      PlainPrefix(s[i..], v, "%");
      SuffixOccurrence(s, v, i);
      if |v| <= |s[i..]| {
        PercentMatchesAll(s[i..][|v|..]);
      }
    }
  }

  lemma PlainStartsWith(s: string, v: string)
    requires Plain(v)
    ensures Like(s, StartsWithPattern(v)) <==> StartsWith(s, v)
  {
    PlainPrefix(s, v, "%");
    if |v| <= |s| {
      PercentMatchesAll(s[|v|..]);
    }
  }

  lemma PlainEndsWith(s: string, v: string)
    requires Plain(v)
    ensures Like(s, EndsWithPattern(v)) <==> EndsWith(s, v)
  {
    AnySuffix(s, v);
    assert v + "" == v;
    forall i: nat | i <= |s| ensures Like(s[i..], v) <==> OccursAt(s, v, i) && i + |v| == |s| {
      PlainPrefix(s[i..], v, "");
      SuffixOccurrence(s, v, i);
    }
  }

  // ---------- values with wildcards ----------

  /** One text a pattern matches: `%` stands for nothing, `_` for an x, an escape for its character. */
  function Instance(p: string): string {
    if p == "" then ""
    else if p[0] == '%' then Instance(p[1..])
    else if p[0] == '_' then "x" + Instance(p[1..])
    else if p[0] == '\\' then (if |p| > 1 then [p[1]] + Instance(p[2..]) else "")
    else [p[0]] + Instance(p[1..])
  }

  /** The pattern ends inside an escape. */
  predicate DanglingEscape(p: string) {
    if p == "" then false
    else if p[0] == '\\' then |p| == 1 || DanglingEscape(p[2..])
    else DanglingEscape(p[1..])
  }

  lemma {:induction false} InstanceMatches(p: string)
    requires !DanglingEscape(p)
    ensures Like(Instance(p), p)
  {
    if p == "" {
    } else if p[0] == '\\' {
      InstanceMatches(p[2..]);
      assert Instance(p)[1..] == Instance(p[2..]);
    } else if p[0] == '%' {
      InstanceMatches(p[1..]);
    } else {
      InstanceMatches(p[1..]);
      assert Instance(p)[1..] == Instance(p[1..]);
    }
  }

  lemma {:induction false} DanglingMatchesNothing(s: string, p: string)
    requires DanglingEscape(p)
    ensures !Like(s, p)
    decreases |p| + |s|
  {
    if p[0] == '%' {
      DanglingMatchesNothing(s, p[1..]);
      if s != "" { DanglingMatchesNothing(s[1..], p); }
    } else if s != "" && p[0] == '\\' {
      if |p| > 1 { DanglingMatchesNothing(s[1..], p[2..]); }
    } else if s != "" {
      DanglingMatchesNothing(s[1..], p[1..]);
    }
  }

  /** `tail` is what follows the value in its pattern: nothing, or one more `%`. */
  lemma {:induction false} InstanceDiffers(v: string, tail: string)
    requires tail == "" || tail == "%"
    ensures |Instance(v + tail)| <= |v|
    ensures SameText(Instance(v + tail), v) ==> Plain(v)
    ensures tail == "%" ==> !DanglingEscape(v + tail)
  {
    var p := v + tail;
    if v == "" {
      assert p == tail;
      assert tail == "%" ==> tail[1..] == "" && Instance(tail) == "" && !DanglingEscape(tail);
    } else if v[0] == '\\' && |v| == 1 {
      if tail == "%" {
        assert p[1] == '%' && p[2..] == "";
        assert Instance(p) == "%" + Instance("");
      }
    } else if v[0] == '\\' {
      assert p[2..] == v[2..] + tail;
      InstanceDiffers(v[2..], tail);
    } else {
      assert p[1..] == v[1..] + tail;
      InstanceDiffers(v[1..], tail);
      var x, rest := Instance(p), Instance(p[1..]);
      if v[0] == '_' {
        assert !Same(x[0], v[0]);
      } else if v[0] != '%' && SameText(x, v) {
        TailSame(x, v);
        assert x[1..] == rest;
        forall i | 0 <= i < |v| ensures !IsWildcard(v[i]) {
          if i > 0 {
            assert v[1..][i - 1] == v[i];
          }
        }
      }
    }
  }

  lemma TailSame(a: string, b: string)
    requires SameText(a, b) && a != ""
    ensures SameText(a[1..], b[1..])
  {
    forall i | 0 <= i < |a| - 1 ensures Same(a[1..][i], b[1..][i]) {
      assert Same(a[i + 1], b[i + 1]);
    }
  }

  lemma ShortMatchIsWhole(s: string, v: string, i: nat)
    requires |s| <= |v| && OccursAt(s, v, i)
    ensures SameText(s, v)
  {
    assert s[i..i + |v|] == s;
  }

  /** A "contains" filter finds the value as a substring, whatever the text, exactly when the value
      has no `%`, `_` or backslash in it. */
  lemma ContainsExactlyWhenPlain(v: string)
    ensures (forall s :: Like(s, ContainsPattern(v)) <==> Contains(s, v)) <==> Plain(v)
  {
    if Plain(v) {
      forall s ensures Like(s, ContainsPattern(v)) <==> Contains(s, v) {
        PlainContains(s, v);
      }
    } else {
      var s := Instance(v + "%");
      InstanceDiffers(v, "%");
      InstanceMatches(v + "%");
      assert ContainsPattern(v)[1..] == v + "%";
      assert Like(s, ContainsPattern(v));
      forall i: nat ensures !OccursAt(s, v, i) {
        if OccursAt(s, v, i) {
          ShortMatchIsWhole(s, v, i);
        }
      }
      assert !Contains(s, v);
    }
  }

  /** The same for "starts with". */
  lemma StartsWithExactlyWhenPlain(v: string)
    ensures (forall s :: Like(s, StartsWithPattern(v)) <==> StartsWith(s, v)) <==> Plain(v)
  {
    if Plain(v) {
      forall s ensures Like(s, StartsWithPattern(v)) <==> StartsWith(s, v) {
        PlainStartsWith(s, v);
      }
    } else {
      var s := Instance(v + "%");
      InstanceDiffers(v, "%");
      InstanceMatches(v + "%");
      assert Like(s, StartsWithPattern(v));
      if StartsWith(s, v) {
        ShortMatchIsWhole(s, v, 0);
      }
    }
  }

  /** The same for "ends with". */
  lemma EndsWithExactlyWhenPlain(v: string)
    ensures (forall s :: Like(s, EndsWithPattern(v)) <==> EndsWith(s, v)) <==> Plain(v)
  {
    if Plain(v) {
      forall s ensures Like(s, EndsWithPattern(v)) <==> EndsWith(s, v) {
        PlainEndsWith(s, v);
      }
    } else if DanglingEscape(v) {
      assert EndsWithPattern(v)[1..] == v;
      DanglingMatchesNothing(v, EndsWithPattern(v));
      assert v[0..0 + |v|] == v;
      assert EndsWith(v, v);
    } else {
      var s := Instance(v);
      assert v + "" == v;
      InstanceDiffers(v, "");
      InstanceMatches(v);
      assert EndsWithPattern(v)[1..] == v;
      assert Like(s, EndsWithPattern(v));
      if EndsWith(s, v) {
        ShortMatchIsWhole(s, v, |s| - |v|);
      }
    }
  }
}
