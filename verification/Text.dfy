/**
 Strings as sequences of characters: byte-wise order, splitting at a separator,
 and substring search.
 */
module Text {

  // ---- Lexicographic order, the order of Go's `<` on strings ----

  predicate Less(a: string, b: string) {
    if b == "" then false
    else if a == "" then true
    else if a[0] != b[0] then a[0] < b[0]
    else Less(a[1..], b[1..])
  }

  lemma {:induction false} LessTransitive(a: string, b: string, c: string)
    requires Less(a, b) && Less(b, c)
    ensures Less(a, c)
  {
    if a != "" && a[0] == b[0] == c[0] {
      LessTransitive(a[1..], b[1..], c[1..]);
    }
  }

  /** Exactly one of: equal, before, after. */
  lemma {:induction false} LessTrichotomy(a: string, b: string)
    ensures Less(a, b) || Less(b, a) || a == b
    ensures !(Less(a, b) && Less(b, a))
    ensures a == b ==> !Less(a, b)
  {
    if a != "" && b != "" {
      LessTrichotomy(a[1..], b[1..]);
      assert a == [a[0]] + a[1..] && b == [b[0]] + b[1..];
    }
  }

  /** A common prefix does not influence the order. */
  lemma {:induction false} LessCommonPrefix(p: string, a: string, b: string)
    ensures Less(p + a, p + b) == Less(a, b)
  {
    if p == "" {
      assert p + a == a && p + b == b;
    } else {
      assert (p + a)[1..] == p[1..] + a && (p + b)[1..] == p[1..] + b;
      LessCommonPrefix(p[1..], a, b);
    }
  }

  lemma Assoc(a: string, b: string, c: string)
    ensures a + b + c == a + (b + c)
  {}

  // ---- Splitting at a separator ----

  function Split(s: string, sep: char): (parts: seq<string>)
    ensures parts != []
  {
    if s == "" then [""]
    else
      var rest := Split(s[1..], sep);
      if s[0] == sep then [""] + rest else [[s[0]] + rest[0]] + rest[1..]
  }

  function Join(parts: seq<string>, sep: char): string
    requires parts != []
  {
    if |parts| == 1 then parts[0] else parts[0] + [sep] + Join(parts[1..], sep)
  }

  lemma {:induction false} JoinSplit(s: string, sep: char)
    ensures Join(Split(s, sep), sep) == s
    ensures forall part :: part in Split(s, sep) ==> sep !in part
  {
    if s != "" {
      JoinSplit(s[1..], sep);
      var rest := Split(s[1..], sep);
      assert s == [s[0]] + s[1..];
      if s[0] == sep {
        var parts := [""] + rest;
        assert parts[1..] == rest;
        assert Join(parts, sep) == "" + [sep] + Join(rest, sep);
      } else {
        var parts := [[s[0]] + rest[0]] + rest[1..];
        assert parts[1..] == rest[1..];
        if |rest| > 1 {
          Assoc([s[0]], rest[0], [sep]);
          Assoc([s[0]], rest[0] + [sep], Join(rest[1..], sep));
        }
        assert rest[0] in rest;
        assert forall part :: part in rest[1..] ==> part in rest;
      }
    }
  }

  lemma {:induction false} SplitSingle(part: string, sep: char)
    requires sep !in part
    ensures Split(part, sep) == [part]
  {
    if part != "" {
      SplitSingle(part[1..], sep);
      assert part == [part[0]] + part[1..];
    }
  }

  lemma {:induction false} SplitCons(part: string, sep: char, s: string)
    requires sep !in part
    ensures Split(part + [sep] + s, sep) == [part] + Split(s, sep)
  {
    var whole := part + [sep] + s;
    if part == "" {
      assert whole[1..] == s;
    } else {
      assert whole[1..] == part[1..] + [sep] + s;
      SplitCons(part[1..], sep, s);
      assert part == [part[0]] + part[1..];
    }
  }

  lemma {:induction false} SplitJoin(parts: seq<string>, sep: char)
    requires parts != []
    requires forall part :: part in parts ==> sep !in part
    ensures Split(Join(parts, sep), sep) == parts
  {
    if |parts| == 1 {
      SplitSingle(parts[0], sep);
    } else {
      SplitJoin(parts[1..], sep);
      SplitCons(parts[0], sep, Join(parts[1..], sep));
    }
  }

  // ---- Substring search ----

  ghost predicate OccursAt(s: string, sub: string, i: int) {
    0 <= i <= |s| - |sub| && s[i..i + |sub|] == sub
  }

  /** Go's strings.Contains. */
  predicate Contains(s: string, sub: string)
    ensures Contains(s, sub) <==> exists i :: OccursAt(s, sub, i)
  {
    ContainsFrom(s, sub, 0)
  }

  predicate ContainsFrom(s: string, sub: string, from: nat)
    requires from <= |s|
    ensures ContainsFrom(s, sub, from) <==> exists i :: from <= i && OccursAt(s, sub, i)
    decreases |s| - from
  {
    if |s| - from < |sub| then
      false
    else if s[from..from + |sub|] == sub then
      assert OccursAt(s, sub, from);
      true
    else
      from < |s| && ContainsFrom(s, sub, from + 1)
  }
}
