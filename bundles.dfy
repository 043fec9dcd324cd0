/** The bundle manifest: a Markdown document in which a `### ` heading opens a bundle and each
    list item of the form - [`name`](../skills/name/) below it adds one skill to that bundle.
    Parsing builds a map from bundle names to skill lists, in the order the names first
    appear; resolving a query picks the single bundle whose name contains it. */
module Bundles {
  import opened Wrappers
  import opened Text

  // ---------------------------------------------------------------------------
  // Recognising lines

  /** A path segment that can name a skill: not empty, not "..", not "skills". */
  predicate ValidSegment(p: string)
  {
    p != "" && p != ".." && p != "skills"
  }

  /** What a skill name taken from a link always is. */
  predicate ValidSkillName(s: string)
  {
    ValidSegment(s) && '/' !in s
  }

  /** The first segment of `parts` that can name a skill, if any. */
  function FirstValid(parts: seq<string>): (r: Option<string>)
    ensures r.Some? ==> ValidSegment(r.value) && r.value in parts
    ensures r.Some? ==> exists i :: 0 <= i < |parts| && parts[i] == r.value
                                    && forall k :: 0 <= k < i ==> !ValidSegment(parts[k])
    ensures r.None? <==> forall k :: 0 <= k < |parts| ==> !ValidSegment(parts[k])
  {
    if parts == [] then None
    else if ValidSegment(parts[0]) then Some(parts[0])
    else
      var r := FirstValid(parts[1..]);
      if r.Some? then
        var i :| 0 <= i < |parts[1..]| && parts[1..][i] == r.value
                 && forall k :: 0 <= k < i ==> !ValidSegment(parts[1..][k]);
        assert parts[i + 1] == r.value;
        assert forall k :: 0 <= k < i + 1 ==> !ValidSegment(parts[k]) by {
          forall k | 0 < k < i + 1 ensures !ValidSegment(parts[k]) {
            assert parts[k] == parts[1..][k - 1];
          }
        }
        r
      else r
  }

  /** The skill a relative link names: the first of its "/"-separated segments that is not
      empty, ".." or "skills". */
  function SkillOfLink(link: string): (r: Option<string>)
    ensures r.Some? ==> ValidSkillName(r.value)
    ensures r.Some? ==> exists i :: 0 <= i < |Split(link, '/')| && Split(link, '/')[i] == r.value
                                    && forall k :: 0 <= k < i ==> !ValidSegment(Split(link, '/')[k])
    ensures r.None? <==> forall p :: p in Split(link, '/') ==> !ValidSegment(p)
  {
    FirstValid(Split(link, '/'))
  }

  /** The text between the first "(" and the first ")" of a line, or nothing when either is
      missing; empty when the ")" comes first. */
  function LinkOf(line: string): (r: Option<string>)
    ensures r.Some? <==> '(' in line && ')' in line
  {
    match (Find(line, '('), Find(line, ')'))
    case (Some(start), Some(end)) => Some(Slice(line, start + 1, end))
    case _ => None
  }

  /** The name a heading line opens: after stripping, the line starts with "### "; the name is
      the line with every "###" removed, stripped again. */
  function HeaderName(line: string): Option<string>
  {
    var l := Strip(line);
    if StartsWith(l, "### ") then Some(Strip(RemoveAll(l, "###"))) else None
  }

  /** The skill a list item names: after stripping, the line starts with "- [`" and has a link
      in which some segment names a skill. */
  function SkillRef(line: string): (r: Option<string>)
    ensures r.Some? ==> ValidSkillName(r.value)
  {
    var l := Strip(line);
    if StartsWith(l, "- [`") then
      match LinkOf(l)
      case Some(link) => SkillOfLink(link)
      case None => None
    else None
  }

  /** What one line of the manifest is to the parser. */
  datatype LineKind = Heading(name: string) | Item(skill: string) | Other

  /** A heading is recognised first; any other line is an item when it names a skill. */
  function Classify(line: string): (r: LineKind)
    ensures r.Item? ==> ValidSkillName(r.skill)
  {
    match HeaderName(line)
    case Some(name) => Heading(name)
    case None =>
      match SkillRef(line)
      case Some(skill) => Item(skill)
      case None => Other
  }

  function Kinds(lines: seq<string>): (r: seq<LineKind>)
    ensures |r| == |lines|
    ensures forall i :: 0 <= i < |lines| ==> r[i] == Classify(lines[i])
  {
    seq(|lines|, i requires 0 <= i < |lines| => Classify(lines[i]))
  }

  // ---------------------------------------------------------------------------
  // The manifest and the scan that builds it

  /** Bundle names in the order they were first defined, and each bundle's skills in manifest
      order. */
  datatype Manifest = Manifest(names: seq<string>, skills: map<string, seq<string>>)

  predicate Distinct(s: seq<string>)
  {
    forall i, j :: 0 <= i < j < |s| ==> s[i] != s[j]
  }

  ghost predicate WellFormed(m: Manifest)
  {
    Distinct(m.names) && forall k :: k in m.skills <==> k in m.names
  }

  /** The parser's state: the dictionary being built (keys in insertion order, and values) and
      the bundle currently open, if any. */
  datatype Scan = Scan(names: seq<string>, lists: map<string, seq<string>>, current: Option<string>)

  const Initial := Scan([], map[], None)

  /** The current bundle is set and is a non-empty name (an empty name counts as unset). */
  predicate IsOpen(current: Option<string>)
  {
    current.Some? && current.value != ""
  }

  ghost predicate Consistent(st: Scan)
  {
    && Distinct(st.names)
    && (forall k :: k in st.lists <==> k in st.names)
    && (st.current.Some? ==> st.current.value in st.lists)
    && ("" in st.lists ==> st.lists[""] == [])
    && (forall k, s :: k in st.lists && s in st.lists[k] ==> ValidSkillName(s))
  }

  lemma OpenKeepsConsistent(st: Scan, name: string)
    requires Consistent(st)
    ensures Consistent(Scan(if name in st.lists then st.names else st.names + [name],
                            st.lists[name := []], Some(name)))
  {
    var names := if name in st.lists then st.names else st.names + [name];
    var lists := st.lists[name := []];
    forall k | k in names ensures k in lists {
      if k != name { assert k in st.names; }
    }
    forall k, s | k in lists && s in lists[k] ensures ValidSkillName(s) {
      assert k != name && s in st.lists[k];
    }
  }

  lemma AppendKeepsConsistent(st: Scan, skill: string)
    requires Consistent(st) && IsOpen(st.current) && ValidSkillName(skill)
    ensures Consistent(Scan(st.names, st.lists[st.current.value := st.lists[st.current.value] + [skill]],
                            st.current))
  {
    var b := st.current.value;
    var lists := st.lists[b := st.lists[b] + [skill]];
    forall k, s | k in lists && s in lists[k] ensures ValidSkillName(s) {
      if k != b { assert s in st.lists[k]; }
    }
  }

  /** One line of the manifest: a heading opens (or reopens, emptying it) a bundle; a skill
      item while a bundle is open is appended to it; any other line changes nothing. */
  function Step(st: Scan, kind: LineKind): (r: Scan)
    requires Consistent(st)
    requires kind.Item? ==> ValidSkillName(kind.skill)
    ensures Consistent(r)
  {
    match kind
    case Heading(name) =>
      OpenKeepsConsistent(st, name);
      Scan(if name in st.lists then st.names else st.names + [name], st.lists[name := []], Some(name))
    case Item(skill) =>
      if IsOpen(st.current) then
        AppendKeepsConsistent(st, skill);
        var b := st.current.value;
        Scan(st.names, st.lists[b := st.lists[b] + [skill]], st.current)
      else st
    case Other => st
  }

  predicate ItemsValid(kinds: seq<LineKind>)
  {
    forall i :: 0 <= i < |kinds| && kinds[i].Item? ==> ValidSkillName(kinds[i].skill)
  }

  function ScanFrom(st: Scan, kinds: seq<LineKind>): (r: Scan)
    requires Consistent(st) && ItemsValid(kinds)
    ensures Consistent(r)
    decreases |kinds|
  {
    if kinds == [] then st
    else
      assert ItemsValid(kinds[1..]) by {
        forall i | 0 <= i < |kinds| - 1 && kinds[1..][i].Item? ensures ValidSkillName(kinds[1..][i].skill) {
          assert kinds[1..][i] == kinds[i + 1];
        }
      }
      ScanFrom(Step(st, kinds[0]), kinds[1..])
  }

  function NonEmptyNames(names: seq<string>, lists: map<string, seq<string>>): (r: seq<string>)
    requires forall k :: k in names ==> k in lists
    ensures forall k :: k in r <==> k in names && lists[k] != []
    ensures Distinct(names) ==> Distinct(r)
  {
    if names == [] then []
    else if lists[names[0]] != [] then [names[0]] + NonEmptyNames(names[1..], lists)
    else NonEmptyNames(names[1..], lists)
  }

  /** The final dictionary keeps the bundles whose skill list is not empty. */
  function Finish(st: Scan): (m: Manifest)
    requires Consistent(st)
    ensures WellFormed(m)
    ensures forall k :: k in m.skills <==> k in st.lists && st.lists[k] != []
    ensures forall k :: k in m.skills ==> m.skills[k] == st.lists[k]
  {
    Manifest(NonEmptyNames(st.names, st.lists),
             map k | k in st.lists && st.lists[k] != [] :: st.lists[k])
  }

  /** The manifest a document's lines describe. */
  function Parse(lines: seq<string>): (m: Manifest)
    ensures WellFormed(m)
    ensures "" !in m.skills
    ensures forall k :: k in m.skills ==> m.skills[k] != []
    ensures forall k, s :: k in m.skills && s in m.skills[k] ==> ValidSkillName(s)
  {
    Finish(ScanFrom(Initial, Kinds(lines)))
  }

  /** The parser as the program runs it: one pass over the lines, updating the dictionary and
      the open bundle in place, then dropping the empty bundles. */
  method ParseBundles(lines: seq<string>) returns (m: Manifest)
    ensures m == Parse(lines)
  {
    var names: seq<string> := [];
    var lists: map<string, seq<string>> := map[];
    var current: Option<string> := None;
    ghost var kinds := Kinds(lines);
    for i := 0 to |lines|
      invariant Consistent(Scan(names, lists, current))
      invariant ScanFrom(Scan(names, lists, current), kinds[i..]) == ScanFrom(Initial, kinds)
    {
      assert kinds[i..][0] == kinds[i] && kinds[i..][1..] == kinds[i + 1..];
      names, lists, current := ScanLine(names, lists, current, lines[i]);
    }
    m := Finish(Scan(names, lists, current));
  }

  /** The body of the parser's loop: one line, stripped, either opens a bundle or, while one
      is open, may add a skill to it. */
  method ScanLine(names: seq<string>, lists: map<string, seq<string>>, current: Option<string>, rawLine: string)
    returns (names': seq<string>, lists': map<string, seq<string>>, current': Option<string>)
    requires Consistent(Scan(names, lists, current))
    ensures Scan(names', lists', current') == Step(Scan(names, lists, current), Classify(rawLine))
  {
    names', lists', current' := names, lists, current;
    var line := Strip(rawLine);
    if StartsWith(line, "### ") {
      var name := Strip(RemoveAll(line, "###"));
      if name !in lists' {
        names' := names' + [name];
      }
      lists' := lists'[name := []];
      current' := Some(name);
      return;
    }
    assert Classify(rawLine) == if SkillRef(rawLine).Some? then Item(SkillRef(rawLine).value) else Other;
    if IsOpen(current') && StartsWith(line, "- [`") {
      var skill := ItemSkill(rawLine, line);
      if skill.Some? {
        lists' := lists'[current'.value := lists'[current'.value] + [skill.value]];
      }
    }
  }

  /** The parser's extraction of the skill from a stripped list item: the text between the
      first "(" and the first ")", then the first segment of it that can name a skill. */
  method ItemSkill(rawLine: string, line: string) returns (skill: Option<string>)
    requires line == Strip(rawLine) && StartsWith(line, "- [`")
    ensures skill == SkillRef(rawLine)
  {
    assert SkillRef(rawLine) == match LinkOf(line) case Some(link) => SkillOfLink(link) case None => None;
    skill := None;
    var start := Find(line, '(');
    var end := Find(line, ')');
    if start.Some? && end.Some? {
      var link := Slice(line, start.value + 1, end.value);
      assert LinkOf(line) == Some(link);
      skill := SkillOfLink(link);
    }
  }

  // ---------------------------------------------------------------------------
  // What the parse means

  /** The skills a stretch of lines contributes before the next heading. */
  function Section(kinds: seq<LineKind>): (r: seq<string>)
  {
    if kinds == [] || kinds[0].Heading? then []
    else (if kinds[0].Item? then [kinds[0].skill] else []) + Section(kinds[1..])
  }

  /** The skills the lines contribute to the bundle open above them, up to the next heading. */
  function SectionSkills(lines: seq<string>): (r: seq<string>)
    ensures forall s :: s in r ==> ValidSkillName(s)
  {
    SectionValid(Kinds(lines));
    Section(Kinds(lines))
  }

  lemma {:induction false} SectionValid(kinds: seq<LineKind>)
    requires ItemsValid(kinds)
    ensures forall s :: s in Section(kinds) ==> ValidSkillName(s)
    decreases |kinds|
  {
    if kinds != [] && !kinds[0].Heading? {
      assert ItemsValid(kinds[1..]) by {
        forall i | 0 <= i < |kinds| - 1 && kinds[1..][i].Item? ensures ValidSkillName(kinds[1..][i].skill) {
          assert kinds[1..][i] == kinds[i + 1];
        }
      }
      SectionValid(kinds[1..]);
    }
  }

  predicate NoHeadingNamed(kinds: seq<LineKind>, k: string)
  {
    forall j :: 0 <= j < |kinds| ==> kinds[j] != Heading(k)
  }

  lemma {:induction false} ScanAppend(st: Scan, a: seq<LineKind>, b: seq<LineKind>)
    requires Consistent(st) && ItemsValid(a) && ItemsValid(b)
    ensures ItemsValid(a + b)
    ensures ScanFrom(st, a + b) == ScanFrom(ScanFrom(st, a), b)
    decreases |a|
  {
    if a == [] {
      assert a + b == b;
    } else {
      assert (a + b)[0] == a[0] && (a + b)[1..] == a[1..] + b;
      assert ItemsValid(a[1..]) by {
        forall i | 0 <= i < |a| - 1 && a[1..][i].Item? ensures ValidSkillName(a[1..][i].skill) {
          assert a[1..][i] == a[i + 1];
        }
      }
      ScanAppend(Step(st, a[0]), a[1..], b);
    }
  }

  /** One line that is not a heading for `k` changes `k`'s list only by appending the line's
      skill while `k` is open, and leaves `k` open exactly when it was open and the line is
      no heading. */
  lemma StepAt(st: Scan, kind: LineKind, k: string)
    requires Consistent(st) && (kind.Item? ==> ValidSkillName(kind.skill))
    requires k in st.lists && kind != Heading(k)
    ensures var next := Step(st, kind);
            k in next.lists
            && next.lists[k] == st.lists[k] + (if kind.Item? && st.current == Some(k) && k != "" then [kind.skill] else [])
            && (next.current == Some(k) <==> st.current == Some(k) && !kind.Heading?)
  {
    match kind
    case Heading(name) =>
    case Item(skill) =>
      assert st.lists[k] + [] == st.lists[k];
    case Other =>
      assert st.lists[k] + [] == st.lists[k];
  }

  /** A bundle that is not open keeps its list while no heading reopens it. */
  lemma {:induction false} ClosedSection(st: Scan, kinds: seq<LineKind>, k: string)
    requires Consistent(st) && ItemsValid(kinds)
    requires k in st.lists && (st.current != Some(k) || k == "")
    requires NoHeadingNamed(kinds, k)
    ensures k in ScanFrom(st, kinds).lists && ScanFrom(st, kinds).lists[k] == st.lists[k]
    decreases |kinds|
  {
    if kinds != [] {
      assert kinds[0] != Heading(k);
      TailValid(kinds, k);
      StepAt(st, kinds[0], k);
      ClosedSection(Step(st, kinds[0]), kinds[1..], k);
    }
  }

  lemma TailValid(kinds: seq<LineKind>, k: string)
    requires kinds != [] && ItemsValid(kinds) && NoHeadingNamed(kinds, k)
    ensures ItemsValid(kinds[1..]) && NoHeadingNamed(kinds[1..], k)
  {
    forall i | 0 <= i < |kinds| - 1 ensures kinds[1..][i] == kinds[i + 1] { }
  }

  /** The open bundle collects the skills of the lines up to the next heading, and keeps them
      afterwards while no heading reopens it. */
  lemma {:induction false} OpenSection(st: Scan, kinds: seq<LineKind>, k: string)
    requires Consistent(st) && ItemsValid(kinds) && st.current == Some(k) && k != ""
    requires NoHeadingNamed(kinds, k)
    ensures k in ScanFrom(st, kinds).lists
    ensures ScanFrom(st, kinds).lists[k] == st.lists[k] + Section(kinds)
    decreases |kinds|
  {
    if kinds == [] {
      assert st.lists[k] + [] == st.lists[k];
    } else {
      assert kinds[0] != Heading(k);
      TailValid(kinds, k);
      var next := Step(st, kinds[0]);
      StepAt(st, kinds[0], k);
      if kinds[0].Heading? {
        ClosedSection(next, kinds[1..], k);
        assert st.lists[k] + [] == st.lists[k];
      } else {
        var added := if kinds[0].Item? then [kinds[0].skill] else [];
        OpenSection(next, kinds[1..], k);
        assert ScanFrom(st, kinds) == ScanFrom(next, kinds[1..]);
        assert Section(kinds) == added + Section(kinds[1..]);
        assert next.lists[k] == st.lists[k] + added;
        assert st.lists[k] + added + Section(kinds[1..]) == st.lists[k] + Section(kinds);
      }
    }
  }

  lemma KindsValid(lines: seq<string>)
    ensures ItemsValid(Kinds(lines))
  {
  }

  lemma KindsSplit(lines: seq<string>, i: nat)
    requires i < |lines|
    ensures Kinds(lines) == Kinds(lines[..i]) + ([Classify(lines[i])] + Kinds(lines[i + 1..]))
  {
    var whole, pre, post := Kinds(lines), Kinds(lines[..i]), Kinds(lines[i + 1..]);
    var joined := pre + ([Classify(lines[i])] + post);
    assert |joined| == |whole|;
    forall j | 0 <= j < |whole| ensures joined[j] == whole[j] {
      if j < i {
        assert joined[j] == pre[j] && lines[..i][j] == lines[j];
      } else if j > i {
        assert joined[j] == post[j - i - 1] && lines[i + 1..][j - i - 1] == lines[j];
      }
    }
  }

  /** After a heading for `k` that no later heading repeats, the scan ends with `k` holding
      exactly the skills of the lines after that heading up to the next one. */
  lemma ScanLastHeading(pre: seq<LineKind>, k: string, rest: seq<LineKind>)
    requires ItemsValid(pre) && ItemsValid(rest) && NoHeadingNamed(rest, k) && k != ""
    ensures ItemsValid(pre + ([Heading(k)] + rest))
    ensures var st := ScanFrom(Initial, pre + ([Heading(k)] + rest));
            k in st.lists && st.lists[k] == Section(rest)
  {
    var tail := [Heading(k)] + rest;
    assert ItemsValid(tail) by {
      forall j | 0 < j < |tail| ensures tail[j] == rest[j - 1] { }
    }
    ScanAppend(Initial, pre, tail);
    var header := Step(ScanFrom(Initial, pre), Heading(k));
    assert tail[0] == Heading(k) && tail[1..] == rest;
    assert ScanFrom(ScanFrom(Initial, pre), tail) == ScanFrom(header, rest);
    OpenSection(header, rest, k);
  }

  /** The last heading for a name decides that bundle: its skills are exactly those listed
      between that heading and the next one, earlier sections under the same name are
      discarded, and the bundle is present exactly when that list is not empty. */
  lemma ParseLastHeader(lines: seq<string>, i: nat, k: string)
    requires i < |lines| && HeaderName(lines[i]) == Some(k) && k != ""
    requires forall j :: i < j < |lines| ==> HeaderName(lines[j]) != Some(k)
    ensures k in Parse(lines).skills <==> SectionSkills(lines[i + 1..]) != []
    ensures k in Parse(lines).skills ==> Parse(lines).skills[k] == SectionSkills(lines[i + 1..])
  {
    var pre, rest := Kinds(lines[..i]), Kinds(lines[i + 1..]);
    KindsSplit(lines, i);
    KindsValid(lines[..i]);
    KindsValid(lines[i + 1..]);
    assert Classify(lines[i]) == Heading(k);
    assert NoHeadingNamed(rest, k) by {
      forall j | 0 <= j < |rest| ensures rest[j] != Heading(k) {
        var line := lines[i + 1..][j];
        assert line == lines[i + 1 + j];
        if Classify(line) == Heading(k) {
          HeadingFromHeader(line, k);
        }
      }
    }
    ScanLastHeading(pre, k, rest);
    assert SectionSkills(lines[i + 1..]) == Section(rest);
  }

  lemma {:induction false} ScanKeys(st: Scan, kinds: seq<LineKind>, k: string)
    requires Consistent(st) && ItemsValid(kinds) && k in ScanFrom(st, kinds).lists
    ensures k in st.lists || Heading(k) in kinds
    decreases |kinds|
  {
    if kinds != [] {
      assert ItemsValid(kinds[1..]) by {
        forall i | 0 <= i < |kinds| - 1 ensures kinds[1..][i] == kinds[i + 1] { }
      }
      ScanKeys(Step(st, kinds[0]), kinds[1..], k);
      assert kinds == [kinds[0]] + kinds[1..];
    }
  }

  /** Every bundle comes from a heading with a non-empty name. */
  lemma ParseKeysFromHeaders(lines: seq<string>, k: string)
    requires k in Parse(lines).skills
    ensures k != "" && exists i :: 0 <= i < |lines| && HeaderName(lines[i]) == Some(k)
  {
    var st := ScanFrom(Initial, Kinds(lines));
    assert k in st.lists;
    ScanKeys(Initial, Kinds(lines), k);
    var i :| 0 <= i < |lines| && Kinds(lines)[i] == Heading(k);
    HeadingFromHeader(lines[i], k);
  }

  lemma HeadingFromHeader(line: string, k: string)
    requires Classify(line) == Heading(k)
    ensures HeaderName(line) == Some(k)
  {
    match HeaderName(line)
    case Some(name) =>
    case None =>
      match SkillRef(line)
      case Some(skill) =>
      case None =>
  }

  lemma {:induction false} PreambleIgnored(kinds: seq<LineKind>)
    requires ItemsValid(kinds) && forall j :: 0 <= j < |kinds| ==> !kinds[j].Heading?
    ensures ScanFrom(Initial, kinds) == Initial
    decreases |kinds|
  {
    if kinds != [] {
      assert Step(Initial, kinds[0]) == Initial;
      assert ItemsValid(kinds[1..]) by {
        forall i | 0 <= i < |kinds| - 1 ensures kinds[1..][i] == kinds[i + 1] { }
      }
      assert forall j :: 0 <= j < |kinds| - 1 ==> kinds[1..][j] == kinds[j + 1];
      PreambleIgnored(kinds[1..]);
    }
  }

  /** Skill items before the first heading belong to no bundle. */
  lemma ParseIgnoresPreamble(pre: seq<string>, rest: seq<string>)
    requires forall j :: 0 <= j < |pre| ==> HeaderName(pre[j]).None?
    ensures Parse(pre + rest) == Parse(rest)
  {
    assert Kinds(pre + rest) == Kinds(pre) + Kinds(rest);
    KindsValid(pre);
    KindsValid(rest);
    ScanAppend(Initial, Kinds(pre), Kinds(rest));
    PreambleIgnored(Kinds(pre));
  }

  lemma SplitSkillTail(x: string)
    requires ValidSkillName(x)
    ensures Split(x + "/", '/') == [x, ""]
    ensures Split("skills/" + x + "/", '/') == ["skills", x, ""]
    ensures Split("skills/" + x, '/') == ["skills", x]
  {
    SplitNoSep(x, '/');
    SplitNoSep("", '/');
    SplitAt(x, '/', "");
    assert x + ['/'] + "" == x + "/";
    SplitAt("skills", '/', x + "/");
    assert "skills" + ['/'] + (x + "/") == "skills/" + x + "/";
    SplitAt("skills", '/', x);
    assert "skills" + ['/'] + x == "skills/" + x;
  }

  lemma SplitSkillLink(x: string)
    requires ValidSkillName(x)
    ensures Split("../skills/" + x + "/", '/') == ["..", "skills", x, ""]
    ensures Split("../skills/" + x, '/') == ["..", "skills", x]
  {
    SplitSkillTail(x);
    SplitAt("..", '/', "skills/" + x + "/");
    assert ".." + ['/'] + ("skills/" + x + "/") == "../skills/" + x + "/";
    SplitAt("..", '/', "skills/" + x);
    assert ".." + ['/'] + ("skills/" + x) == "../skills/" + x;
  }

  /** A link written the way the manifest writes them names the skill directory it points to,
      with or without the closing slash. */
  lemma SkillOfCanonicalLink(x: string)
    requires ValidSkillName(x)
    ensures SkillOfLink("../skills/" + x + "/") == Some(x)
    ensures SkillOfLink("../skills/" + x) == Some(x)
  {
    SkillOfSlashedLink(x);
    SkillOfBareLink(x);
  }

  lemma SkillOfSlashedLink(x: string)
    requires ValidSkillName(x)
    ensures SkillOfLink("../skills/" + x + "/") == Some(x)
  {
    SplitSkillLink(x);
    SkillOfLinkAt("../skills/" + x + "/", ["..", "skills", x, ""], 2);
  }

  lemma SkillOfBareLink(x: string)
    requires ValidSkillName(x)
    ensures SkillOfLink("../skills/" + x) == Some(x)
  {
    SplitSkillLink(x);
    SkillOfLinkAt("../skills/" + x, ["..", "skills", x], 2);
  }

  lemma SkillOfLinkAt(link: string, parts: seq<string>, i: nat)
    requires Split(link, '/') == parts && i < |parts| && ValidSegment(parts[i])
    requires forall k :: 0 <= k < i ==> !ValidSegment(parts[k])
    ensures SkillOfLink(link) == Some(parts[i])
  {
    FirstValidAt(parts, i);
  }

  /** The segment at `i` is taken exactly when it is valid and none before it is. */
  lemma {:induction false} FirstValidAt(parts: seq<string>, i: nat)
    requires i < |parts| && ValidSegment(parts[i])
    requires forall k :: 0 <= k < i ==> !ValidSegment(parts[k])
    ensures FirstValid(parts) == Some(parts[i])
  {
    if i > 0 {
      assert forall k :: 0 <= k < i - 1 ==> parts[1..][k] == parts[k + 1];
      FirstValidAt(parts[1..], i - 1);
    }
  }

  lemma LinkOfParts(head: string, link: string, tail: string)
    requires '(' !in head && ')' !in head && ')' !in link
    ensures LinkOf(head + "(" + link + ")" + tail) == Some(link)
  {
    var line := head + "(" + link + ")" + tail;
    var start, end := |head|, |head| + 1 + |link|;
    LinkBounds(head, link, tail);
    LinkBetween(line, start, end);
    assert line[start + 1..end] == link by {
      SliceMiddle(head + ['('], link, [')'] + tail);
      assert line == (head + ['(']) + link + ([')'] + tail);
    }
  }

  lemma LinkBetween(line: string, start: nat, end: nat)
    requires Find(line, '(') == Some(start) && Find(line, ')') == Some(end) && start < end
    ensures LinkOf(line) == Some(line[start + 1..end])
  {
  }

  /** Where the first "(" and the first ")" of such a line are. */
  lemma LinkBounds(head: string, link: string, tail: string)
    requires '(' !in head && ')' !in head && ')' !in link
    ensures Find(head + "(" + link + ")" + tail, '(') == Some(|head|)
    ensures Find(head + "(" + link + ")" + tail, ')') == Some(|head| + 1 + |link|)
  {
    var line := head + "(" + link + ")" + tail;
    assert line == head + ['('] + (link + [')'] + tail);
    FindAfter(head, '(', link + [')'] + tail);
    assert line == (head + ['('] + link) + [')'] + tail;
    FindAfter(head + ['('] + link, ')', tail);
  }

  lemma SliceMiddle(a: string, b: string, c: string)
    ensures (a + b + c)[|a|..|a| + |b|] == b
  {
  }

  /** A bundle name never begins or ends with whitespace. */
  lemma HeaderNameTrimmed(line: string)
    ensures HeaderName(line).Some? ==> Strip(HeaderName(line).value) == HeaderName(line).value
  {
  }

  /** A heading line ### x, with a name that has no `#` and no whitespace at either end, opens
      the bundle named exactly x. */
  lemma HeaderOfHeading(ws1: string, x: string, ws2: string)
    requires forall k :: 0 <= k < |ws1| ==> IsSpace(ws1[k])
    requires forall k :: 0 <= k < |ws2| ==> IsSpace(ws2[k])
    requires x != [] && !IsSpace(x[0]) && !IsSpace(x[|x| - 1]) && '#' !in x
    ensures HeaderName(ws1 + "### " + x + ws2) == Some(x)
  {
    var line := "### " + x;
    assert line[0] == '#' && line[|line| - 1] == x[|x| - 1];
    assert ws1 + "### " + x + ws2 == ws1 + line + ws2;
    StripAround(ws1, line, ws2);
    assert line[..4] == "### ";
    HeadingRemoveAll(x);
    StripOneSpace(x);
  }

  lemma HeadingRemoveAll(x: string)
    requires '#' !in x
    ensures RemoveAll("### " + x, "###") == " " + x
  {
    var rest := " " + x;
    assert "### " + x == "###" + rest;
    RemoveAllDrops(rest, "###");
    RemoveAllKeeps(rest, [], "###");
    assert rest + [] == rest;
  }

  lemma StripOneSpace(x: string)
    requires x != [] && !IsSpace(x[0]) && !IsSpace(x[|x| - 1])
    ensures Strip(" " + x) == x
  {
    assert (" " + x)[1..] == x;
    assert StripLeft(" " + x) == x;
  }

  lemma ItemLineShape(ws1: string, x: string, description: string, ws2: string)
    requires forall k :: 0 <= k < |ws1| ==> IsSpace(ws1[k])
    requires forall k :: 0 <= k < |ws2| ==> IsSpace(ws2[k])
    requires description == [] || !IsSpace(description[|description| - 1])
    ensures var line := "- [`" + x + "`](../skills/" + x + "/)" + description;
      Strip(ws1 + line + ws2) == line && StartsWith(line, "- [`")
  {
    var line := "- [`" + x + "`](../skills/" + x + "/)" + description;
    assert line[0] == '-';
    assert line[..4] == "- [`";
    if description == [] {
      assert line[|line| - 1] == ')';
    } else {
      assert line[|line| - 1] == description[|description| - 1];
    }
    StripAround(ws1, line, ws2);
  }

  /** A list item - [`x`](../skills/x/) followed by a description, indented or followed by
      whitespace or not, names skill `x`. */
  lemma SkillRefOfItem(ws1: string, x: string, description: string, ws2: string)
    requires forall k :: 0 <= k < |ws1| ==> IsSpace(ws1[k])
    requires forall k :: 0 <= k < |ws2| ==> IsSpace(ws2[k])
    requires ValidSkillName(x) && '(' !in x && ')' !in x
    requires description == [] || !IsSpace(description[|description| - 1])
    ensures SkillRef(ws1 + "- [`" + x + "`](../skills/" + x + "/)" + description + ws2) == Some(x)
  {
    var head := "- [`" + x + "`]";
    var link := "../skills/" + x + "/";
    var line := head + "(" + link + ")" + description;
    assert "- [`" + x + "`](../skills/" + x + "/)" + description == line;
    assert ws1 + "- [`" + x + "`](../skills/" + x + "/)" + description + ws2 == ws1 + line + ws2;
    assert ')' !in link;
    LinkOfParts(head, link, description);
    ItemLineShape(ws1, x, description, ws2);
    SkillOfCanonicalLink(x);
  }

  // ---------------------------------------------------------------------------
  // Resolving a query to one bundle

  /** A query picks a bundle when it occurs in the bundle's name, ignoring case. */
  predicate NameMatches(query: string, name: string)
  {
    IsSubstring(Lower(query), Lower(name))
  }

  /** The names a query picks, in manifest order. */
  function Matching(names: seq<string>, query: string): (r: seq<string>)
    ensures forall x :: x in r <==> x in names && NameMatches(query, x)
    ensures Distinct(names) ==> Distinct(r)
  {
    if names == [] then []
    else if NameMatches(query, names[0]) then [names[0]] + Matching(names[1..], query)
    else Matching(names[1..], query)
  }

  datatype Resolution = NoMatch | Unique(name: string) | Ambiguous(names: seq<string>)

  function Resolve(m: Manifest, query: string): (r: Resolution)
    ensures r.Ambiguous? ==> |r.names| > 1
    ensures r.Unique? ==> r.name in m.names && NameMatches(query, r.name)
  {
    var matches := Matching(m.names, query);
    if matches == [] then NoMatch
    else if |matches| > 1 then Ambiguous(matches)
    else assert matches[0] in matches; Unique(matches[0])
  }

  lemma {:induction false} DistinctCard(r: seq<string>)
    requires Distinct(r)
    ensures |set x | x in r| == |r|
  {
    if r != [] {
      assert Distinct(r[1..]) by {
        forall i, j | 0 <= i < j < |r| - 1 ensures r[1..][i] != r[1..][j] {
          assert r[1..][i] == r[i + 1] && r[1..][j] == r[j + 1];
        }
      }
      DistinctCard(r[1..]);
      assert r[0] !in r[1..] by {
        forall j | 0 <= j < |r| - 1 ensures r[1..][j] != r[0] { assert r[1..][j] == r[j + 1]; }
      }
      assert (set x | x in r) == {r[0]} + (set x | x in r[1..]);
    }
  }

  lemma DistinctOnly(r: seq<string>, b: string)
    requires Distinct(r) && b in r && forall x :: x in r ==> x == b
    ensures r == [b]
  {
    DistinctCard(r);
    assert (set x | x in r) == {b};
    assert r[0] in r;
  }

  /** A query resolves to a bundle exactly when that bundle is the only one whose name
      contains it; it resolves to nothing exactly when no name contains it. */
  lemma ResolveUnique(m: Manifest, query: string, b: string)
    requires WellFormed(m)
    ensures Resolve(m, query) == Unique(b) <==>
              b in m.skills && NameMatches(query, b)
              && forall x :: x in m.skills && NameMatches(query, x) ==> x == b
    ensures Resolve(m, query) == NoMatch <==>
              forall x :: x in m.skills ==> !NameMatches(query, x)
  {
    var matches := Matching(m.names, query);
    if b in m.skills && NameMatches(query, b)
       && (forall x :: x in m.skills && NameMatches(query, x) ==> x == b) {
      DistinctOnly(matches, b);
    }
    if Resolve(m, query) == Unique(b) {
      assert matches == [b];
      assert b in matches;
    }
    if matches != [] {
      assert matches[0] in matches;
    }
  }
}
