/** Listing and searching the global repository: its skills are its visible directories; a
    query matches a skill when it occurs in the name ignoring case, or when its letters and
    digits occur among the name's letters and digits. */
module Search {
  import opened Text
  import opened Fs

  // ---------------------------------------------------------------------------
  // Skill names

  /** The skill names of a directory: its directories (links to directories included), except
      the hidden ones, each once and in increasing order. */
  function GetSkillNames(dir: Listing): (r: seq<string>)
    ensures StrictlySorted(r)
    ensures forall x :: x in r <==> x in dir && IsDir(dir[x]) && !IsHidden(x)
  {
    SortedSet(set n | n in dir && IsDir(dir[n]) && !IsHidden(n))
  }

  // ---------------------------------------------------------------------------
  // Matching

  function KeepAlnum(s: string): (r: string)
    ensures |r| <= |s|
    ensures forall i :: 0 <= i < |r| ==> IsAlnum(r[i])
  {
    if s == [] then []
    else if IsAlnum(s[0]) then [s[0]] + KeepAlnum(s[1..])
    else KeepAlnum(s[1..])
  }

  /** The letters and digits of `s`, in order, case-folded. */
  function Normalize(s: string): (r: string)
    ensures |r| <= |s|
    ensures forall i :: 0 <= i < |r| ==> IsAlnum(r[i]) && !IsUpper(r[i])
  {
    Lower(KeepAlnum(s))
  }

  /** A skill matches when the case-folded query occurs in the case-folded name, or when the
      normalised query is not empty and occurs in the normalised name. */
  predicate SkillMatches(query: string, skill: string)
    ensures SkillMatches(query, skill) ==> IsSubstring(Normalize(query), Normalize(skill))
    ensures query == [] ==> SkillMatches(query, skill)
  {
    RawImpliesNormalized(query, skill);
    IsSubstring(Lower(query), Lower(skill))
    || (Normalize(query) != "" && IsSubstring(Normalize(query), Normalize(skill)))
  }

  /** The search as the program runs it: one pass over the sorted skill names collecting the
      matches, then sorting the distinct ones. */
  method SearchSkills(repo: Listing, query: string) returns (matches: seq<string>)
    ensures StrictlySorted(matches)
    ensures forall x :: x in matches <==> x in GetSkillNames(repo) && SkillMatches(query, x)
  {
    var all := GetSkillNames(repo);
    var found: seq<string> := [];
    var normQuery := Normalize(query);
    for i := 0 to |all|
      invariant forall x :: x in found <==> x in all[..i] && SkillMatches(query, x)
    {
      assert all[..i + 1] == all[..i] + [all[i]];
      var skill := all[i];
      if IsSubstring(Lower(query), Lower(skill)) {
        found := found + [skill];
        continue;
      }
      if normQuery != "" && IsSubstring(normQuery, Normalize(skill)) {
        found := found + [skill];
      }
    }
    assert all[..|all|] == all;
    matches := SortedSet(set x | x in found);
  }

  // ---------------------------------------------------------------------------
  // What matching means

  lemma {:induction false} KeepAlnumConcat(a: string, b: string)
    ensures KeepAlnum(a + b) == KeepAlnum(a) + KeepAlnum(b)
  {
    if a != [] {
      assert (a + b)[0] == a[0] && (a + b)[1..] == a[1..] + b;
      KeepAlnumConcat(a[1..], b);
    } else {
      assert a + b == b;
    }
  }

  lemma {:induction false} KeepAlnumLower(s: string)
    ensures KeepAlnum(Lower(s)) == Lower(KeepAlnum(s))
  {
    if s != [] {
      assert Lower(s) == [LowerChar(s[0])] + Lower(s[1..]);
      KeepAlnumLower(s[1..]);
      if IsAlnum(s[0]) {
        assert Lower([s[0]] + KeepAlnum(s[1..])) == [LowerChar(s[0])] + Lower(KeepAlnum(s[1..]));
      }
    }
  }

  lemma NormalizeConcat(a: string, b: string)
    ensures Normalize(a + b) == Normalize(a) + Normalize(b)
  {
    KeepAlnumConcat(a, b);
    LowerConcat(KeepAlnum(a), KeepAlnum(b));
  }

  lemma LowerConcat(x: string, y: string)
    ensures Lower(x + y) == Lower(x) + Lower(y)
  {
    assert forall i :: 0 <= i < |x + y| ==> (x + y)[i] == if i < |x| then x[i] else y[i - |x|];
  }

  lemma NormalizeOfLower(s: string)
    ensures Normalize(Lower(s)) == Normalize(s)
  {
    KeepAlnumLower(s);
    assert Lower(Lower(KeepAlnum(s))) == Lower(KeepAlnum(s));
  }

  /** The raw rule never matches anything the normalised rule misses: whenever the query has
      a letter or a digit, a skill matches exactly when the normalised query occurs in the
      normalised name; otherwise only the raw rule can match. */
  lemma MatchesNormalized(query: string, skill: string)
    ensures IsSubstring(Lower(query), Lower(skill)) ==> IsSubstring(Normalize(query), Normalize(skill))
    ensures Normalize(query) != "" ==>
              (SkillMatches(query, skill) <==> IsSubstring(Normalize(query), Normalize(skill)))
    ensures Normalize(query) == "" ==>
              (SkillMatches(query, skill) <==> IsSubstring(Lower(query), Lower(skill)))
  {
    RawImpliesNormalized(query, skill);
  }

  /** A case-insensitive occurrence is also an occurrence of the normal forms. */
  lemma RawImpliesNormalized(query: string, skill: string)
    ensures IsSubstring(Lower(query), Lower(skill)) ==> IsSubstring(Normalize(query), Normalize(skill))
  {
    var q, s := Lower(query), Lower(skill);
    if IsSubstring(q, s) {
      var i := SubstringWitness(q, s);
      var pre, post := s[..i], s[i + |q|..];
      assert s == pre + q + post;
      NormalizeConcat(pre + q, post);
      NormalizeConcat(pre, q);
      NormalizeOfLower(query);
      NormalizeOfLower(skill);
      var n := Normalize(skill);
      assert n == Normalize(pre) + Normalize(query) + Normalize(post);
      assert n[|Normalize(pre)|..|Normalize(pre)| + |Normalize(query)|] == Normalize(query);
      SubstringAt(Normalize(query), n, |Normalize(pre)|);
    }
  }

  lemma {:induction false} KeepAlnumAll(s: string)
    requires forall i :: 0 <= i < |s| ==> IsAlnum(s[i])
    ensures KeepAlnum(s) == s
  {
    if s != [] {
      KeepAlnumAll(s[1..]);
      assert [s[0]] + s[1..] == s;
    }
  }

  lemma LowerNoUpper(s: string)
    requires forall i :: 0 <= i < |s| ==> !IsUpper(s[i])
    ensures Lower(s) == s
  {
  }

  /** The normalised form of words joined by one symbol is the words run together. */
  lemma NormalizeJoined(a: string, sep: char, b: string)
    requires forall i :: 0 <= i < |a| ==> IsAlnum(a[i]) && !IsUpper(a[i])
    requires forall i :: 0 <= i < |b| ==> IsAlnum(b[i]) && !IsUpper(b[i])
    requires !IsAlnum(sep)
    ensures Normalize(a + [sep] + b) == a + b
  {
    assert KeepAlnum(a + [sep] + b) == a + b by {
      KeepAlnumConcat(a + [sep], b);
      KeepAlnumConcat(a, [sep]);
      KeepAlnumAll(a);
      KeepAlnumAll(b);
      assert KeepAlnum([sep]) == [];
      assert a + [] == a;
    }
    assert forall i :: 0 <= i < |a + b| ==> !IsUpper((a + b)[i]) by {
      forall i | 0 <= i < |a + b| ensures !IsUpper((a + b)[i]) {
        if i < |a| { assert (a + b)[i] == a[i]; } else { assert (a + b)[i] == b[i - |a|]; }
      }
    }
    LowerNoUpper(a + b);
  }

  /** A word of lower-case letters and digits is its own normal form. */
  lemma NormalizeWord(s: string)
    requires forall i :: 0 <= i < |s| ==> IsAlnum(s[i]) && !IsUpper(s[i])
    ensures Normalize(s) == s
  {
    KeepAlnumAll(s);
    LowerNoUpper(s);
  }

  /** Symbols are ignored: "writingplans" finds "writing-plans". */
  lemma WritingPlansExample(query: string, skill: string)
    requires query == "writingplans" && skill == "writing-plans"
    ensures SkillMatches(query, skill)
  {
    var a, b := "writing", "plans";
    NormalizeJoined(a, '-', b);
    assert a + ['-'] + b == skill;
    NormalizeWord(query);
    assert StartsWith(Normalize(skill), Normalize(query));
  }

  /** Three words joined by symbols normalise to the three words run together. */
  lemma NormalizeJoined3(a: string, s1: char, b: string, s2: char, c: string)
    requires forall i :: 0 <= i < |a| ==> IsAlnum(a[i]) && !IsUpper(a[i])
    requires forall i :: 0 <= i < |b| ==> IsAlnum(b[i]) && !IsUpper(b[i])
    requires forall i :: 0 <= i < |c| ==> IsAlnum(c[i]) && !IsUpper(c[i])
    requires !IsAlnum(s1) && !IsAlnum(s2)
    ensures Normalize(a + [s1] + b + [s2] + c) == a + b + c
    ensures StartsWith(a + b + c, a + b)
  {
    NormalizeJoined(b, s2, c);
    NormalizeJoined(a, s1, []);
    NormalizeConcat(a + [s1], b + [s2] + c);
    assert a + [s1] + [] == a + [s1];
    assert a + [s1] + (b + [s2] + c) == a + [s1] + b + [s2] + c;
    assert (a + b + c)[..|a + b|] == a + b;
  }

  /** "complex_skill" finds "complex-skill-gamma" once the separators are dropped. */
  lemma ComplexSkillExample(query: string, skill: string)
    requires query == "complex_skill" && skill == "complex-skill-gamma"
    ensures SkillMatches(query, skill)
  {
    var a, b, c := "complex", "skill", "gamma";
    NormalizeJoined(a, '_', b);
    assert a + ['_'] + b == query;
    NormalizeJoined3(a, '-', b, '-', c);
    assert a + ['-'] + b + ['-'] + c == skill;
  }

  /** A name in which a letter occurs in neither case has it in neither of its folded forms. */
  lemma LacksLetter(s: string, c: char)
    requires 'a' <= c <= 'z'
    requires forall i :: 0 <= i < |s| ==> LowerChar(s[i]) != c
    ensures c !in Lower(s) && c !in Normalize(s)
  {
    KeepAlnumIn(s);
    var k := KeepAlnum(s);
    forall i | 0 <= i < |k| ensures Normalize(s)[i] != c {
      var j :| 0 <= j < |s| && s[j] == k[i];
    }
  }

  /** A query whose letters occur nowhere in the name finds nothing. */
  lemma NoMatchExample(query: string, skill: string)
    requires query == "zzz" && skill == "skill-alpha"
    ensures !SkillMatches(query, skill)
  {
    LacksLetter(skill, 'z');
    NotSubstring(Lower(query), Lower(skill));
    NormalizeWord(query);
    NotSubstring(Normalize(query), Normalize(skill));
  }

  lemma {:induction false} KeepAlnumIn(s: string)
    ensures forall i :: 0 <= i < |KeepAlnum(s)| ==> KeepAlnum(s)[i] in s
  {
    if s != [] {
      KeepAlnumIn(s[1..]);
    }
  }

  lemma {:induction false} NotSubstring(p: string, s: string)
    requires p != [] && p[0] !in s
    ensures !IsSubstring(p, s)
  {
    if s != [] {
      NotSubstring(p, s[1..]);
    }
  }
}
