/** The commands as they run: one object holds the global repository's root and listing, the
    project directory's path and listing, and the lines of the bundle manifest; the commands
    that change the project reassign its listing, each proved to agree with the matching
    function of `Project`. */
module Manager {
  import opened Text
  import opened Fs
  import opened Bundles
  import opened Project

  class SkillsManager {
    /** Where the global repository lives, and what it holds. */
    const globalRoot: Path
    const repo: Listing
    /** Where the project keeps its skills. */
    const projectDir: Path
    /** The lines of the bundle manifest. */
    const manifest: seq<string>
    /** What the project's skills directory holds. */
    var entries: Listing

    constructor (globalRoot: Path, repo: Listing, projectDir: Path, manifest: seq<string>, entries: Listing)
      ensures this.globalRoot == globalRoot && this.repo == repo
      ensures this.projectDir == projectDir && this.manifest == manifest
      ensures this.entries == entries
    {
      this.globalRoot := globalRoot;
      this.repo := repo;
      this.projectDir := projectDir;
      this.manifest := manifest;
      this.entries := entries;
    }

    /** `install <name>`. */
    method InstallSkill(name: string) returns (outcome: InstallOutcome)
      modifies this
      ensures (outcome, entries) == Install(globalRoot, repo, old(entries), name)
    {
      if !Present(repo, name) {
        return NotInSource;
      }
      if Present(entries, name) {
        return AlreadyInstalled;
      }
      if name in entries {
        // the dangling link is in the way of the new one
        return LinkFailed;
      }
      entries := entries[name := LinkTo(globalRoot, repo, name)];
      outcome := Installed;
    }

    /** `uninstall <name>`. */
    method UninstallSkill(name: string) returns (outcome: UninstallOutcome)
      modifies this
      ensures (outcome, entries) == Uninstall(globalRoot, projectDir, old(entries), name)
    {
      if !Present(entries, name) && !(name in entries && IsSymlink(entries[name])) {
        return NotInstalled;
      }
      var target := entries[name];
      if IsSymlink(target) || IsFile(target) {
        entries := entries - {name};
        return LinkRemoved;
      }
      if Guard(globalRoot, projectDir + [name]) {
        return SafetyStop;
      }
      entries := entries - {name};
      outcome := DirectoryRemoved;
    }

    /** `install bundle <query>`. */
    method InstallBundle(query: string) returns (outcome: BundleOutcome<InstallOutcome>)
      modifies this
      ensures (outcome, entries) == BundleInstall(globalRoot, repo, old(entries), manifest, query)
    {
      var bundles := ParseBundles(manifest);
      var matches := Matching(bundles.names, query);
      if matches == [] {
        return NoBundle;
      }
      if |matches| > 1 {
        return AmbiguousBundle(matches);
      }
      var target := matches[0];
      assert target in matches;
      var results, processed := InstallEach(bundles.skills[target]);
      outcome := Processed(target, results, processed);
    }

    /** The loop of `install bundle`: every skill in order, none skipped. */
    method InstallEach(skills: seq<string>) returns (results: seq<InstallOutcome>, processed: nat)
      modifies this
      ensures (results, entries) == InstallAll(globalRoot, repo, old(entries), skills)
      ensures processed == |skills|
    {
      results := [];
      processed := 0;
      ghost var spec := InstallAll(globalRoot, repo, entries, skills);
      assert skills[0..] == skills && results + spec.0 == spec.0;
      for i := 0 to |skills|
        invariant processed == |results| == i
        invariant spec == (results + InstallAll(globalRoot, repo, entries, skills[i..]).0,
                           InstallAll(globalRoot, repo, entries, skills[i..]).1)
      {
        assert skills[i..][0] == skills[i] && skills[i..][1..] == skills[i + 1..];
        ghost var before := entries;
        var r := InstallSkill(skills[i]);
        ghost var rest := InstallAll(globalRoot, repo, entries, skills[i + 1..]);
        assert InstallAll(globalRoot, repo, before, skills[i..]) == ([r] + rest.0, rest.1);
        assert results + [r] + rest.0 == results + ([r] + rest.0);
        results := results + [r];
        processed := processed + 1;
      }
      assert skills[|skills|..] == [];
      assert results + [] == results;
    }

    /** `uninstall bundle <query>`. */
    method UninstallBundle(query: string) returns (outcome: BundleOutcome<UninstallOutcome>)
      modifies this
      ensures (outcome, entries) == BundleUninstall(globalRoot, projectDir, old(entries), manifest, query)
    {
      var bundles := ParseBundles(manifest);
      var matches := Matching(bundles.names, query);
      if matches == [] {
        return NoBundle;
      }
      if |matches| > 1 {
        return AmbiguousBundle(matches);
      }
      var target := matches[0];
      assert target in matches;
      var results, processed := UninstallEach(bundles.skills[target]);
      outcome := Processed(target, results, processed);
    }

    /** The loop of `uninstall bundle`: every skill in order, none skipped. */
    method UninstallEach(skills: seq<string>) returns (results: seq<UninstallOutcome>, processed: nat)
      modifies this
      ensures (results, entries) == UninstallAll(globalRoot, projectDir, old(entries), skills)
      ensures processed == |skills|
    {
      results := [];
      processed := 0;
      ghost var spec := UninstallAll(globalRoot, projectDir, entries, skills);
      assert skills[0..] == skills && results + spec.0 == spec.0;
      for i := 0 to |skills|
        invariant processed == |results| == i
        invariant spec == (results + UninstallAll(globalRoot, projectDir, entries, skills[i..]).0,
                           UninstallAll(globalRoot, projectDir, entries, skills[i..]).1)
      {
        assert skills[i..][0] == skills[i] && skills[i..][1..] == skills[i + 1..];
        ghost var before := entries;
        var r := UninstallSkill(skills[i]);
        ghost var rest := UninstallAll(globalRoot, projectDir, entries, skills[i + 1..]);
        assert UninstallAll(globalRoot, projectDir, before, skills[i..]) == ([r] + rest.0, rest.1);
        assert results + [r] + rest.0 == results + ([r] + rest.0);
        results := results + [r];
        processed := processed + 1;
      }
      assert skills[|skills|..] == [];
      assert results + [] == results;
    }

    /** `clear`, with the reply to the prompt given as `response`. */
    method ClearAllSkills(force: bool, response: string) returns (outcome: ClearOutcome)
      modifies this
      ensures (outcome, entries) == Clear(globalRoot, projectDir, old(entries), force, response)
    {
      var items := Candidates(entries);
      if items == {} {
        return NothingToClear;
      }
      if !force {
        var answer := Lower(Strip(response));
        if answer != "y" {
          return Cancelled;
        }
      }
      var count := RemoveCandidates(items);
      outcome := Cleared(count);
    }

    /** The loop of `clear`: each candidate, taken in whatever order the directory yields
        them, is removed unless the safety check protects it, and the removals are counted. */
    method RemoveCandidates(items: set<string>) returns (count: nat)
      requires items == Candidates(entries)
      modifies this
      ensures count == |Removable(globalRoot, projectDir, old(entries))|
      ensures entries == map n | n in old(entries) && n !in Removable(globalRoot, projectDir, old(entries)) :: old(entries)[n]
    {
      ghost var start := entries;
      ghost var gone := Removable(globalRoot, projectDir, start);
      ghost var removed: set<string> := {};
      var remaining := items;
      count := 0;
      while remaining != {}
        invariant remaining <= items
        invariant forall n :: n in removed <==> n in gone && n !in remaining
        invariant count == |removed|
        invariant forall n :: n in entries <==> n in start && n !in removed
        invariant forall n :: n in entries ==> entries[n] == start[n]
        decreases |remaining|
      {
        var name :| name in remaining;
        var target := entries[name];
        if IsSymlink(target) || IsFile(target) {
          entries := entries - {name};
        } else if IsDir(target) {
          if Guard(globalRoot, projectDir + [name]) {
            remaining := remaining - {name};
            continue;
          }
          entries := entries - {name};
        }
        assert name !in removed;
        removed := removed + {name};
        count := count + 1;
        remaining := remaining - {name};
      }
      assert removed == gone;
      assert entries == map n | n in start && n !in gone :: start[n];
    }

    /** `list`: the names the project listing shows, in order, and their number. */
    method ListProject() returns (shown: seq<string>, count: nat)
      ensures StrictlySorted(shown)
      ensures forall n :: n in shown <==> n in Listed(entries)
      ensures count == |shown| == |Listed(entries)|
    {
      var items := SortedSet(entries.Keys);
      shown := [];
      count := 0;
      for i := 0 to |items|
        invariant count == |shown|
        invariant StrictlySorted(shown)
        invariant forall n :: n in shown <==> n in items[..i] && n in Listed(entries)
      {
        var name := items[i];
        assert items[..i + 1] == items[..i] + [name];
        if IsHidden(name) {
          continue;
        }
        var item := entries[name];
        if IsSymlink(item) || IsDir(item) {
          SortedAppend(items, i, shown);
          shown := shown + [name];
          count := count + 1;
        }
      }
      assert items[..|items|] == items;
      ShownCount(shown, Listed(entries));
    }
  }

  /** Keeping some of a sorted list's first `i` names and then its `i`-th keeps the order. */
  lemma SortedAppend(items: seq<string>, i: nat, shown: seq<string>)
    requires StrictlySorted(items) && i < |items|
    requires StrictlySorted(shown) && forall n :: n in shown ==> n in items[..i]
    ensures StrictlySorted(shown + [items[i]])
  {
    forall k | 0 <= k < |shown| ensures Before(shown[k], items[i]) {
      assert shown[k] in items[..i];
      var j :| 0 <= j < i && items[j] == shown[k];
    }
  }

  /** A sorted list holding exactly the names of a set is as long as the set is large. */
  lemma ShownCount(shown: seq<string>, names: set<string>)
    requires StrictlySorted(shown) && forall n :: n in shown <==> n in names
    ensures |shown| == |names|
  {
    StrictlySortedDistinct(shown);
    DistinctCard(shown);
    assert (set x | x in shown) == names;
  }
}
