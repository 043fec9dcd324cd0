/** What the commands do to the project's skills directory, stated on listings: installing
    and uninstalling one skill, doing either for every skill of a bundle, clearing the
    directory, and which of its entries the project listing counts. */
module Project {
  import opened Wrappers
  import opened Text
  import opened Fs
  import opened Bundles

  // ---------------------------------------------------------------------------
  // One skill

  datatype InstallOutcome =
    | Installed          // a link to the global copy was created
    | AlreadyInstalled   // something that exists already has the name
    | NotInSource        // the global repository has no such entry
    | LinkFailed         // a dangling link has the name, so creating the link fails

  datatype UninstallOutcome =
    | LinkRemoved        // a link or a file was unlinked
    | DirectoryRemoved   // a real directory was removed with everything in it
    | NotInstalled       // nothing, not even a dangling link, has the name
    | SafetyStop         // a real directory the safety check refuses to remove

  /** The link `install` creates: it names the skill's path in the global repository. */
  function LinkTo(root: Path, repo: Listing, name: string): (e: Entry)
    requires name in repo
    ensures e.Symlink? && e.target == root + [name] && Exists(e)
    ensures IsDir(e) <==> IsDir(repo[name])
  {
    Symlink(root + [name], IsDir(repo[name]))
  }

  /** Installing `name` into the project listing `entries` from the repository listing
      `repo` found at `root`. */
  function Install(root: Path, repo: Listing, entries: Listing, name: string): (r: (InstallOutcome, Listing))
    ensures r.0 == NotInSource <==> !Present(repo, name)
    ensures r.0 == AlreadyInstalled <==> Present(repo, name) && Present(entries, name)
    ensures r.0 == LinkFailed <==> Present(repo, name) && name in entries && !Exists(entries[name])
    ensures r.0 == Installed <==> Present(repo, name) && name !in entries
    ensures r.0 == Installed ==> r.1 == entries[name := LinkTo(root, repo, name)]
    ensures r.0 != Installed ==> r.1 == entries
  {
    if !Present(repo, name) then (NotInSource, entries)
    else if Present(entries, name) then (AlreadyInstalled, entries)
    else if name in entries then (LinkFailed, entries)   // creating the link over the dangling one fails
    else (Installed, entries[name := LinkTo(root, repo, name)])
  }

  /** The safety check as the program writes it, `GLOBAL_SKILLS_REPO in target.parents`: it
      asks only whether the target lies strictly below the global root. */
  predicate GuardAsWritten(root: Path, target: Path)
  {
    IsParent(root, target)
  }

  /** The safety check the program means, and the one this model uses: the target is the
      global root itself or lies below it. */
  predicate Guard(root: Path, target: Path)
  {
    target == root || IsParent(root, target)
  }

  /** The entries the safety check protects: a real directory in the project whose path is the
      global repository's root or lies below it. */
  predicate Shielded(root: Path, projectDir: Path, entries: Listing, name: string)
    requires name in entries
  {
    entries[name].Directory? && Guard(root, projectDir + [name])
  }

  /** Uninstalling `name` from the project listing `entries` kept at `projectDir`. */
  function Uninstall(root: Path, projectDir: Path, entries: Listing, name: string): (r: (UninstallOutcome, Listing))
    ensures r.0 == NotInstalled <==> name !in entries
    ensures r.0 == LinkRemoved <==> name in entries && !entries[name].Directory?
    ensures r.0 == SafetyStop <==> name in entries && Shielded(root, projectDir, entries, name)
    ensures r.0 == LinkRemoved || r.0 == DirectoryRemoved ==> r.1 == entries - {name}
    ensures r.0 == NotInstalled || r.0 == SafetyStop ==> r.1 == entries
  {
    if !Present(entries, name) && !(name in entries && IsSymlink(entries[name])) then (NotInstalled, entries)
    else if IsSymlink(entries[name]) || IsFile(entries[name]) then (LinkRemoved, entries - {name})
    // only a real directory is left
    else if Guard(root, projectDir + [name]) then (SafetyStop, entries)
    else (DirectoryRemoved, entries - {name})
  }

  /** Whatever the outcome, no other entry of the project changes. */
  lemma SingleSkillFrame(root: Path, projectDir: Path, repo: Listing, entries: Listing, name: string, k: string)
    requires k != name
    ensures var e := Install(root, repo, entries, name).1;
              (k in e <==> k in entries) && (k in e ==> e[k] == entries[k])
    ensures var e := Uninstall(root, projectDir, entries, name).1;
              (k in e <==> k in entries) && (k in e ==> e[k] == entries[k])
  {
  }

  /** Installing twice is installing once, and the second attempt never installs. */
  lemma InstallIdempotent(root: Path, repo: Listing, entries: Listing, name: string)
    ensures var (o1, e1) := Install(root, repo, entries, name);
            var (o2, e2) := Install(root, repo, e1, name);
            e2 == e1 && o2 != Installed && (o1 == Installed ==> o2 == AlreadyInstalled)
  {
  }

  /** Uninstalling twice is uninstalling once. */
  lemma UninstallIdempotent(root: Path, projectDir: Path, entries: Listing, name: string)
    ensures var (o1, e1) := Uninstall(root, projectDir, entries, name);
            var (o2, e2) := Uninstall(root, projectDir, e1, name);
            e2 == e1 && (o1 == SafetyStop ==> o2 == SafetyStop)
            && (o1 != SafetyStop ==> o2 == NotInstalled)
  {
  }

  /** Installing a skill the project did not have and uninstalling it again gives back the
      project as it was. */
  lemma {:induction false} InstallThenUninstall(root: Path, projectDir: Path, repo: Listing, entries: Listing, name: string)
    requires name !in entries
    ensures var (o1, e1) := Install(root, repo, entries, name);
            var (o2, e2) := Uninstall(root, projectDir, e1, name);
            e2 == entries && (o1 == Installed ==> o2 == LinkRemoved)
  {
    var (o1, e1) := Install(root, repo, entries, name);
    if o1 == Installed {
      assert e1 - {name} == entries;
    }
  }

  /** The check as written asks the same question for every name: whether the global root is
      the project directory or one of its parents. The corrected check also protects the one
      entry whose path is the global root itself. */
  lemma GuardOfChild(root: Path, projectDir: Path, a: string, b: string)
    requires root != []
    ensures GuardAsWritten(root, projectDir + [a]) <==> GuardAsWritten(root, projectDir + [b])
    ensures GuardAsWritten(root, projectDir + [a]) <==> root == projectDir || IsParent(root, projectDir)
    ensures Guard(root, projectDir + [a]) <==> root == projectDir + [a] || GuardAsWritten(root, projectDir + [a])
  {
    ParentOfChild(root, projectDir, a);
    ParentOfChild(root, projectDir, b);
  }

  /** When the project directory is the global root's parent (the tool run from the home
      directory, where the project is `~/.agent/skills` and the repository
      `~/.agent/skills/skills`), the repository is the project's entry `skills`, and the check as
      written does not protect it: `uninstall skills` and `clear` would remove the whole
      repository. */
  lemma AsWrittenMissesRepository(root: Path, projectDir: Path)
    requires root == projectDir + ["skills"]
    ensures !GuardAsWritten(root, projectDir + ["skills"])
    ensures Guard(root, projectDir + ["skills"])
  {
  }

  /** With the corrected check, no `uninstall` and no `clear` ever removes a real directory that
      is the global repository or lies inside it. */
  lemma RepositoryNeverRemoved(root: Path, projectDir: Path, entries: Listing, name: string,
                               force: bool, response: string)
    requires name in entries && entries[name].Directory?
    requires projectDir + [name] == root || IsParent(root, projectDir + [name])
    ensures Uninstall(root, projectDir, entries, name) == (SafetyStop, entries)
    ensures name !in Removable(root, projectDir, entries)
    ensures var e := Clear(root, projectDir, entries, force, response).1;
              name in e && e[name] == entries[name]
  {
  }

  // ---------------------------------------------------------------------------
  // Every skill of a list, in order

  /** Installing each skill in turn, recording each outcome. */
  function InstallAll(root: Path, repo: Listing, entries: Listing, skills: seq<string>): (r: (seq<InstallOutcome>, Listing))
    ensures |r.0| == |skills|
    decreases |skills|
  {
    if skills == [] then ([], entries)
    else
      var (o, e) := Install(root, repo, entries, skills[0]);
      var (os, e') := InstallAll(root, repo, e, skills[1..]);
      ([o] + os, e')
  }

  /** Uninstalling each skill in turn, recording each outcome. */
  function UninstallAll(root: Path, projectDir: Path, entries: Listing, skills: seq<string>): (r: (seq<UninstallOutcome>, Listing))
    ensures |r.0| == |skills|
    decreases |skills|
  {
    if skills == [] then ([], entries)
    else
      var (o, e) := Uninstall(root, projectDir, entries, skills[0]);
      var (os, e') := UninstallAll(root, projectDir, e, skills[1..]);
      ([o] + os, e')
  }

  /** After installing a list of skills the project holds what it held before, unchanged,
      plus a link for every listed skill the repository has and the project lacked. */
  lemma {:induction false} InstallAllState(root: Path, repo: Listing, entries: Listing, skills: seq<string>)
    ensures var e := InstallAll(root, repo, entries, skills).1;
            (forall k :: k in e <==> k in entries || (k in skills && Present(repo, k)))
            && (forall k :: k in e ==> e[k] == if k in entries then entries[k] else LinkTo(root, repo, k))
    decreases |skills|
  {
    if skills != [] {
      var (o, e1) := Install(root, repo, entries, skills[0]);
      InstallAllState(root, repo, e1, skills[1..]);
      assert forall k :: k in skills <==> k == skills[0] || k in skills[1..];
    }
  }

  /** The outcome for each skill: missing from the repository exactly when the repository
      lacks it, installed exactly when this is its first occurrence in the list and the
      project lacked it. */
  lemma {:induction false} InstallAllOutcomes(root: Path, repo: Listing, entries: Listing, skills: seq<string>, i: nat)
    requires i < |skills|
    ensures var os := InstallAll(root, repo, entries, skills).0;
            (os[i] == NotInSource <==> !Present(repo, skills[i]))
            && (os[i] == Installed <==> Present(repo, skills[i]) && skills[i] !in entries && skills[i] !in skills[..i])
    decreases |skills|
  {
    if i > 0 {
      var (o, e1) := Install(root, repo, entries, skills[0]);
      InstallAllOutcomes(root, repo, e1, skills[1..], i - 1);
      assert skills[1..][i - 1] == skills[i];
      assert skills[..i] == [skills[0]] + skills[1..][..i - 1];
    }
  }

  /** After uninstalling a list of skills the project holds exactly the entries that were
      not listed or that the safety check protects, unchanged. */
  lemma {:induction false} UninstallAllState(root: Path, projectDir: Path, entries: Listing, skills: seq<string>)
    ensures var e := UninstallAll(root, projectDir, entries, skills).1;
            (forall k :: k in e <==> k in entries && (k !in skills || Shielded(root, projectDir, entries, k)))
            && (forall k :: k in e ==> e[k] == entries[k])
    decreases |skills|
  {
    if skills != [] {
      var (o, e1) := Uninstall(root, projectDir, entries, skills[0]);
      UninstallAllState(root, projectDir, e1, skills[1..]);
      assert forall k :: k in skills <==> k == skills[0] || k in skills[1..];
    }
  }

  /** The outcome for each skill: a safety stop exactly for protected directories; nothing to
      remove exactly when the project never had the name or an earlier occurrence in the list
      already removed it. */
  lemma {:induction false} UninstallAllOutcomes(root: Path, projectDir: Path, entries: Listing, skills: seq<string>, i: nat)
    requires i < |skills|
    ensures var os := UninstallAll(root, projectDir, entries, skills).0;
            (os[i] == SafetyStop <==> skills[i] in entries && Shielded(root, projectDir, entries, skills[i]))
            && (os[i] == NotInstalled <==>
                  (skills[i] !in entries
                   || (skills[i] in skills[..i] && !Shielded(root, projectDir, entries, skills[i]))))
    decreases |skills|
  {
    if i > 0 {
      var (o, e1) := Uninstall(root, projectDir, entries, skills[0]);
      UninstallAllOutcomes(root, projectDir, e1, skills[1..], i - 1);
      assert skills[1..][i - 1] == skills[i];
      assert skills[..i] == [skills[0]] + skills[1..][..i - 1];
    }
  }

  // ---------------------------------------------------------------------------
  // Bundles

  datatype BundleOutcome<T> =
    | NoBundle                                                    // no bundle name contains the query
    | AmbiguousBundle(matches: seq<string>)                      // several do; nothing is touched
    | Processed(bundle: string, results: seq<T>, processed: nat) // one does; every skill was attempted

  /** `install bundle`: the query picks one bundle of the manifest `lines`, whose skills are
      then installed in order. */
  function BundleInstall(root: Path, repo: Listing, entries: Listing, lines: seq<string>, query: string)
    : (r: (BundleOutcome<InstallOutcome>, Listing))
    ensures r.0.Processed? ==> r.0.bundle in Parse(lines).skills
  {
    var m := Parse(lines);
    match Resolve(m, query)
    case NoMatch => (NoBundle, entries)
    case Ambiguous(names) => (AmbiguousBundle(names), entries)
    case Unique(b) =>
      var (os, e) := InstallAll(root, repo, entries, m.skills[b]);
      (Processed(b, os, |m.skills[b]|), e)
  }

  /** `uninstall bundle`: as `install bundle`, uninstalling instead. */
  function BundleUninstall(root: Path, projectDir: Path, entries: Listing, lines: seq<string>, query: string)
    : (r: (BundleOutcome<UninstallOutcome>, Listing))
    ensures r.0.Processed? ==> r.0.bundle in Parse(lines).skills
  {
    var m := Parse(lines);
    match Resolve(m, query)
    case NoMatch => (NoBundle, entries)
    case Ambiguous(names) => (AmbiguousBundle(names), entries)
    case Unique(b) =>
      var (os, e) := UninstallAll(root, projectDir, entries, m.skills[b]);
      (Processed(b, os, |m.skills[b]|), e)
  }

  /** A bundle command either finds no bundle, or finds several and changes nothing, or finds
      exactly one: the bundle whose name alone contains the query, every one of whose skills
      is attempted and counted, and no skill outside it is touched. */
  lemma BundleInstallEffect(root: Path, repo: Listing, entries: Listing, lines: seq<string>, query: string)
    ensures var (o, e) := BundleInstall(root, repo, entries, lines, query);
            var m := Parse(lines);
            (o.NoBundle? <==> forall x :: x in m.skills ==> !NameMatches(query, x))
            && (!o.Processed? ==> e == entries)
            && (o.AmbiguousBundle? ==> |o.matches| > 1 && forall x :: x in o.matches ==> x in m.skills && NameMatches(query, x))
            && (o.Processed? ==>
                  NameMatches(query, o.bundle)
                  && (forall x :: x in m.skills && NameMatches(query, x) ==> x == o.bundle)
                  && o.processed == |m.skills[o.bundle]| == |o.results|
                  && forall k :: k !in m.skills[o.bundle] ==> (k in e <==> k in entries) && (k in e ==> e[k] == entries[k]))
  {
    var (o, e) := BundleInstall(root, repo, entries, lines, query);
    var m := Parse(lines);
    ResolveUnique(m, query, if o.Processed? then o.bundle else "");
    if o.Processed? {
      InstallAllState(root, repo, entries, m.skills[o.bundle]);
    }
  }

  /** The same four facts for `uninstall bundle`. */
  lemma BundleUninstallEffect(root: Path, projectDir: Path, entries: Listing, lines: seq<string>, query: string)
    ensures var (o, e) := BundleUninstall(root, projectDir, entries, lines, query);
            var m := Parse(lines);
            (o.NoBundle? <==> forall x :: x in m.skills ==> !NameMatches(query, x))
            && (!o.Processed? ==> e == entries)
            && (o.AmbiguousBundle? ==> |o.matches| > 1 && forall x :: x in o.matches ==> x in m.skills && NameMatches(query, x))
            && (o.Processed? ==>
                  NameMatches(query, o.bundle)
                  && (forall x :: x in m.skills && NameMatches(query, x) ==> x == o.bundle)
                  && o.processed == |m.skills[o.bundle]| == |o.results|
                  && forall k :: k !in m.skills[o.bundle] ==> (k in e <==> k in entries) && (k in e ==> e[k] == entries[k]))
  {
    var (o, e) := BundleUninstall(root, projectDir, entries, lines, query);
    var m := Parse(lines);
    ResolveUnique(m, query, if o.Processed? then o.bundle else "");
    if o.Processed? {
      UninstallAllState(root, projectDir, entries, m.skills[o.bundle]);
    }
  }

  // ---------------------------------------------------------------------------
  // Clearing the project

  datatype ClearOutcome =
    | NothingToClear       // no entry without a leading dot
    | Cancelled            // neither forced nor confirmed
    | Cleared(count: nat)  // the number of entries removed

  /** The entries `clear` means to remove: all of those without a leading dot. */
  function Candidates(entries: Listing): (r: set<string>)
    ensures forall n :: n in r <==> n in entries && !IsHidden(n)
  {
    set n | n in entries && !IsHidden(n)
  }

  /** The candidates the safety check lets `clear` remove. */
  function Removable(root: Path, projectDir: Path, entries: Listing): (r: set<string>)
    ensures r <= Candidates(entries)
    ensures forall n :: n in r <==> n in Candidates(entries) && !Shielded(root, projectDir, entries, n)
  {
    set n | n in Candidates(entries) && !Shielded(root, projectDir, entries, n)
  }

  /** The answer to the prompt confirms when, stripped and case-folded, it is "y". */
  predicate Confirmed(force: bool, response: string)
  {
    force || Lower(Strip(response)) == "y"
  }

  /** `clear`: with something to remove and the removal forced or confirmed, every candidate
      but the protected directories is removed and the removals are counted. */
  function Clear(root: Path, projectDir: Path, entries: Listing, force: bool, response: string): (r: (ClearOutcome, Listing))
    ensures r.0.Cleared? <==> Candidates(entries) != {} && Confirmed(force, response)
  {
    if Candidates(entries) == {} then (NothingToClear, entries)
    else if !Confirmed(force, response) then (Cancelled, entries)
    else
      var gone := Removable(root, projectDir, entries);
      (Cleared(|gone|), map n | n in entries && n !in gone :: entries[n])
  }

  /** Only the answers "y" and "Y", whitespace aside, confirm. */
  lemma ConfirmedAnswers(response: string)
    ensures Confirmed(false, response) <==> Strip(response) == "y" || Strip(response) == "Y"
  {
    var s := Strip(response);
    if Lower(s) == "y" {
      assert |s| == 1 && LowerChar(s[0]) == 'y';
      assert s == [s[0]];
    }
    if s == "Y" {
      assert Lower(s) == [LowerChar('Y')];
    }
  }

  /** Dot entries always survive `clear`; when it goes ahead, exactly the dot entries and the
      protected directories remain, untouched, and the count is the number of entries that
      disappeared; otherwise nothing changes. */
  lemma {:induction false} ClearEffect(root: Path, projectDir: Path, entries: Listing, force: bool, response: string)
    ensures var (o, e) := Clear(root, projectDir, entries, force, response);
            (forall n :: n in entries && IsHidden(n) ==> n in e && e[n] == entries[n])
            && (!o.Cleared? ==> e == entries)
            && (o.Cleared? ==>
                  (forall n :: n in e <==> n in entries && (IsHidden(n) || Shielded(root, projectDir, entries, n)))
                  && (forall n :: n in e ==> e[n] == entries[n])
                  && e.Keys <= entries.Keys
                  && o.count == |entries.Keys| - |e.Keys|)
  {
    var (o, e) := Clear(root, projectDir, entries, force, response);
    if o.Cleared? {
      var gone := Removable(root, projectDir, entries);
      assert entries.Keys == e.Keys + gone;
      assert e.Keys * gone == {};
      CardDisjointUnion(e.Keys, gone);
    }
  }

  /** A project holding only installed links, once `clear` is forced or confirmed, is left
      empty, and every link is counted. */
  lemma ClearLinksEmpties(root: Path, projectDir: Path, entries: Listing, force: bool, response: string)
    requires entries != map[] && Confirmed(force, response)
    requires forall n :: n in entries ==> !IsHidden(n) && IsSymlink(entries[n])
    ensures Clear(root, projectDir, entries, force, response) == (Cleared(|entries|), map[])
  {
    var n :| n in entries;
    assert n in Candidates(entries);
    ClearEffect(root, projectDir, entries, force, response);
    var (o, e) := Clear(root, projectDir, entries, force, response);
    assert e.Keys == {};
  }

  lemma CardDisjointUnion(a: set<string>, b: set<string>)
    requires a * b == {}
    ensures |a + b| == |a| + |b|
  {
    assert |a * b| == 0;
  }

  // ---------------------------------------------------------------------------
  // The project listing

  /** The entries `list` counts: links, dangling ones included, and directories, except
      those with a leading dot; plain files are not counted. */
  function Listed(entries: Listing): (r: set<string>)
    ensures forall n :: n in r <==> n in entries && !IsHidden(n) && (IsSymlink(entries[n]) || IsDir(entries[n]))
  {
    set n | n in entries && !IsHidden(n) && (IsSymlink(entries[n]) || IsDir(entries[n]))
  }

  /** A successful install of a visible name adds exactly one entry to the count. */
  lemma InstallListed(root: Path, repo: Listing, entries: Listing, name: string)
    requires !IsHidden(name)
    ensures var (o, e) := Install(root, repo, entries, name);
            o == Installed ==> Listed(e) == Listed(entries) + {name} && |Listed(e)| == |Listed(entries)| + 1
  {
    var (o, e) := Install(root, repo, entries, name);
    if o == Installed {
      assert Listed(e) == Listed(entries) + {name};
    }
  }

  /** After `clear` goes ahead, the listing counts only the directories the safety check
      protected. */
  lemma ClearListed(root: Path, projectDir: Path, entries: Listing, force: bool, response: string)
    ensures var (o, e) := Clear(root, projectDir, entries, force, response);
            o.Cleared? ==>
              forall n :: n in Listed(e) <==> n in entries && !IsHidden(n) && Shielded(root, projectDir, entries, n)
  {
    ClearEffect(root, projectDir, entries, force, response);
  }
}
