/**
 * Renamer plugin selection (`RenameFileHelper`): registering the discovered
 * renamers, choosing and ordering the enabled ones, and asking them in
 * turn for a file name or a destination. Plugins are oracles: what each
 * answers is a function of its registration.
 */
module Renamers {
  import opened Wrappers
  import opened Seqs
  import opened Text
  import opened Paths
  import opened Records

  /* ---------------------------------------------------------------------- */
  /* RemoveFilename                                                         */
  /* ---------------------------------------------------------------------- */

  /**
   * `RemoveFilename`: drop a trailing separator-plus-file-name (compared
   * ordinally) from a renamer's destination, so a renamer that returned the
   * full target path yields its directory.
   */
  function RemoveFilename(filePath: string, destPath: string): (r: string)
    ensures r <= destPath
    ensures (Sep !in destPath || destPath[|destPath| - 1] == Sep) ==> r == destPath
    ensures r != destPath ==> destPath == r + [Sep] + GetFileName(filePath)
  {
    var name := [Sep] + GetFileName(filePath);
    var last := LastIndexOf(destPath, Sep);
    if last > -1 && last < |destPath| - 1 then
      if destPath[last..] == name then
        assert destPath == destPath[..last] + destPath[last..];
        destPath[..last]
      else destPath
    else destPath
  }

  /** The suffix is stripped whenever it is there: a directory combined with the file's own name gives the directory back. */
  lemma RemoveFilenameOfCombine(filePath: string, dir: string)
    requires GetFileName(filePath) != [] && dir != [] && dir[|dir| - 1] != Sep
    ensures RemoveFilename(filePath, Combine(dir, GetFileName(filePath))) == dir
  {
    var fn := GetFileName(filePath);
    var d := dir + [Sep];
    var dest := Combine(dir, fn);
    assert dest == d + fn;
    LastIndexOfAppend(d, fn);
    assert LastIndexOf(d, Sep) == |dir|;
    assert dest[|dir|..] == [Sep] + fn;
    assert dest[..|dir|] == dir;
  }

  /* ---------------------------------------------------------------------- */
  /* Registration (FindRenamers)                                            */
  /* ---------------------------------------------------------------------- */

  /** One entry of the `Renamers` dictionary: key, implementing type, description. */
  datatype Registration = Registration(key: string, impl: int, description: string)

  /** A `RenamerAttribute`; a null `RenamerId` is `None`. */
  datatype Attribute = Attribute(id: Option<string>, description: string)

  /** A discovered type implementing `IRenamer`, with its attributes in declaration order. */
  datatype Discovered = Discovered(impl: int, attributes: seq<Attribute>)

  /** The dictionary, in insertion order (entries are never removed). */
  type Registry = seq<Registration>

  function Keys(reg: seq<Registration>): set<string> {
    set x | x in reg :: x.key
  }

  predicate UniqueKeys(reg: seq<Registration>) {
    KeysUnique(reg, (x: Registration) => x.key)
  }

  /** The registrations one type's attributes offer, skipping null keys. */
  function Offers(impl: int, attrs: seq<Attribute>): (r: seq<Registration>)
    ensures forall x :: x in r ==> x.impl == impl
  {
    if attrs == [] then []
    else
      var rest := Offers(impl, attrs[1..]);
      match attrs[0].id
      case None => rest
      case Some(k) => [Registration(k, impl, attrs[0].description)] + rest
  }

  /** The nested loops of `FindRenamers`, flattened: every offer of every type, in discovery order. */
  function Candidates(types: seq<Discovered>): seq<Registration> {
    if types == [] then [] else Offers(types[0].impl, types[0].attributes) + Candidates(types[1..])
  }

  /** The first candidate with a key. */
  function FirstWithKey(cs: seq<Registration>, k: string): Option<Registration> {
    First(cs, (c: Registration) => c.key == k)
  }

  /** Registering candidates in order: a key already present is skipped (with a warning). */
  function Absorb(reg: Registry, cs: seq<Registration>): (r: Registry)
    requires UniqueKeys(reg)
    decreases cs
    ensures UniqueKeys(r)
    ensures reg <= r
    ensures Keys(r) == Keys(reg) + Keys(cs)
    ensures forall i :: |reg| <= i < |r| ==> r[i].key !in Keys(reg) && FirstWithKey(cs, r[i].key) == Some(r[i])
  {
    if cs == [] then reg
    else
      var c := cs[0];
      var tail := cs[1..];
      assert Keys(cs) == {c.key} + Keys(tail);
      if c.key in Keys(reg) then
        Absorb(reg, tail)
      else
        var grown := reg + [c];
        assert UniqueKeys(grown) by {
          forall i | 0 <= i < |reg| ensures reg[i].key != c.key {
            assert reg[i] in reg;
          }
        }
        assert Keys(grown) == Keys(reg) + {c.key};
        var r := Absorb(grown, tail);
        assert r[|reg|] == c;
        r
  }

  /** `FindRenamers`: register every non-null key of every discovered type; the first registration of a key wins. */
  function FindRenamers(reg: Registry, types: seq<Discovered>): (r: Registry)
    requires UniqueKeys(reg)
    ensures UniqueKeys(r) && reg <= r
    ensures Keys(r) == Keys(reg) + Keys(Candidates(types))
  {
    Absorb(reg, Candidates(types))
  }

  /** A key that was not registered before is registered with its first offer: the first type, first attribute, to name it. */
  lemma FirstRegistrationWins(reg: Registry, types: seq<Discovered>, k: string)
    requires UniqueKeys(reg) && k !in Keys(reg) && k in Keys(Candidates(types))
    ensures exists x :: x in FindRenamers(reg, types) && x.key == k && Some(x) == FirstWithKey(Candidates(types), k)
  {
    var r := FindRenamers(reg, types);
    assert k in Keys(r);
    var x :| x in r && x.key == k;
    var i :| 0 <= i < |r| && r[i] == x;
  }

  /* ---------------------------------------------------------------------- */
  /* Enabled renamers and their order                                       */
  /* ---------------------------------------------------------------------- */

  /** `int.MaxValue`, the rank of a renamer that is not named and the priority of one without a setting. */
  const MaxInt: int := 2147483647

  /** The renamer is considered: no name is requested or it is the named one, and it is not disabled in settings. */
  predicate Considered(x: Registration, name: Option<string>, enabled: map<string, bool>) {
    && (name == None || name == Some("") || x.key == name.value)
    && (x.key !in enabled || enabled[x.key])
  }

  /** `_getEnabledRenamers`: a missing settings entry counts as enabled. */
  function EnabledRenamers(reg: Registry, name: Option<string>, enabled: map<string, bool>): (r: seq<Registration>)
    ensures forall x :: x in r <==> x in reg && Considered(x, name, enabled)
  {
    Filter(reg, (x: Registration) => Considered(x, name, enabled))
  }

  /** With a non-empty name, at most the renamer of that key is yielded. */
  lemma EnabledNamedOnly(reg: Registry, n: string, enabled: map<string, bool>)
    requires UniqueKeys(reg) && n != ""
    ensures forall x :: x in EnabledRenamers(reg, Some(n), enabled) ==> x.key == n
    ensures |EnabledRenamers(reg, Some(n), enabled)| <= 1
  {
    var r := EnabledRenamers(reg, Some(n), enabled);
    FilterKeysUnique(reg, (x: Registration) => Considered(x, Some(n), enabled), (x: Registration) => x.key);
    KeysUniqueOneKey(r, (x: Registration) => x.key, n);
  }

  /** The first sort key: the named renamer ranks 0, every other `int.MaxValue`. */
  function Rank(name: Option<string>, x: Registration): int {
    if name == Some(x.key) then 0 else MaxInt
  }

  /** The second sort key: the configured priority, `int.MaxValue` when there is none. */
  function Priority(prios: map<string, int>, x: Registration): int {
    if x.key in prios then prios[x.key] else MaxInt
  }

  /** `OrderBy(rank).ThenBy(priority).ThenBy(key)`, as a comparison: `a` may come before `b`. */
  predicate Before(name: Option<string>, prios: map<string, int>, a: Registration, b: Registration) {
    || Rank(name, a) < Rank(name, b)
    || (Rank(name, a) == Rank(name, b) && Priority(prios, a) < Priority(prios, b))
    || (Rank(name, a) == Rank(name, b) && Priority(prios, a) == Priority(prios, b) && LessEq(a.key, b.key))
  }

  lemma BeforeTotal(name: Option<string>, prios: map<string, int>, a: Registration, b: Registration)
    ensures Before(name, prios, a, b) || Before(name, prios, b, a)
  {
    LessEqTotal(a.key, b.key);
  }

  lemma BeforeTransitive(name: Option<string>, prios: map<string, int>, a: Registration, b: Registration, c: Registration)
    requires Before(name, prios, a, b) && Before(name, prios, b, c)
    ensures Before(name, prios, a, c)
  {
    if Rank(name, a) == Rank(name, b) == Rank(name, c) && Priority(prios, a) == Priority(prios, b) == Priority(prios, c) {
      LessEqTransitive(a.key, b.key, c.key);
    }
  }

  predicate SortedBy(name: Option<string>, prios: map<string, int>, s: seq<Registration>) {
    forall i, j :: 0 <= i < j < |s| ==> Before(name, prios, s[i], s[j])
  }

  /** A renamer that may precede every member of an ordered list may be put in front of it. */
  lemma SortedCons(name: Option<string>, prios: map<string, int>, y: Registration, s: seq<Registration>)
    requires SortedBy(name, prios, s)
    requires forall z :: z in s ==> Before(name, prios, y, z)
    ensures SortedBy(name, prios, [y] + s)
  {
    var t := [y] + s;
    forall i, j | 0 <= i < j < |t| ensures Before(name, prios, t[i], t[j]) {
      assert t[j] == s[j - 1];
      if i == 0 {
        assert s[j - 1] in s;
      } else {
        assert t[i] == s[i - 1];
      }
    }
  }

  /** A renamer that may precede the head of an ordered list may precede all of it. */
  lemma BeforeHeadBeforeAll(name: Option<string>, prios: map<string, int>, x: Registration, s: seq<Registration>)
    requires SortedBy(name, prios, s) && s != [] && Before(name, prios, x, s[0])
    ensures forall z :: z in s ==> Before(name, prios, x, z)
  {
    forall z | z in s ensures Before(name, prios, x, z) {
      var j :| 0 <= j < |s| && s[j] == z;
      if j > 0 {
        BeforeTransitive(name, prios, x, s[0], z);
      }
    }
  }

  /** The head of an ordered list may precede the list's tail with one more renamer inserted after it. */
  lemma HeadBeforeInserted(name: Option<string>, prios: map<string, int>, x: Registration, s: seq<Registration>, rest: seq<Registration>)
    requires SortedBy(name, prios, s) && s != [] && Before(name, prios, s[0], x)
    requires multiset(rest) == multiset(s[1..]) + multiset{x}
    ensures forall z :: z in rest ==> Before(name, prios, s[0], z)
  {
    forall z | z in rest ensures Before(name, prios, s[0], z) {
      assert z in multiset(rest);
      if z != x {
        assert z in multiset(s[1..]);
        var j :| 0 <= j < |s[1..]| && s[1..][j] == z;
        assert s[j + 1] == z;
      }
    }
  }

  /** Insert one renamer into an ordered list, after every renamer that may precede it. */
  function Insert(name: Option<string>, prios: map<string, int>, x: Registration, s: seq<Registration>): (r: seq<Registration>)
    requires SortedBy(name, prios, s)
    ensures multiset(r) == multiset(s) + multiset{x}
    ensures SortedBy(name, prios, r)
  {
    if s == [] then [x]
    else if !Before(name, prios, s[0], x) then
      BeforeTotal(name, prios, s[0], x);
      BeforeHeadBeforeAll(name, prios, x, s);
      SortedCons(name, prios, x, s);
      [x] + s
    else
      assert s == [s[0]] + s[1..];
      var rest := Insert(name, prios, x, s[1..]);
      HeadBeforeInserted(name, prios, x, s, rest);
      SortedCons(name, prios, s[0], rest);
      [s[0]] + rest
  }

  /** The three-key sort, as an insertion sort. */
  function SortRenamers(name: Option<string>, prios: map<string, int>, s: seq<Registration>): (r: seq<Registration>)
    ensures multiset(r) == multiset(s)
    ensures SortedBy(name, prios, r)
  {
    if s == [] then []
    else
      assert s == [s[0]] + s[1..];
      Insert(name, prios, s[0], SortRenamers(name, prios, s[1..]))
  }

  /** `GetPluginRenamersSorted`: the enabled renamers, ordered by rank, priority and key. */
  function GetPluginRenamersSorted(reg: Registry, name: Option<string>, enabled: map<string, bool>, prios: map<string, int>): (r: seq<Registration>)
    ensures multiset(r) == multiset(EnabledRenamers(reg, name, enabled))
    ensures SortedBy(name, prios, r)
  {
    SortRenamers(name, prios, EnabledRenamers(reg, name, enabled))
  }

  /** The named renamer, when it is enabled and registered, is asked first. */
  lemma NamedRenamerFirst(reg: Registry, n: string, enabled: map<string, bool>, prios: map<string, int>, x: Registration)
    requires UniqueKeys(reg) && x in reg && x.key == n && Considered(x, Some(n), enabled)
    ensures var r := GetPluginRenamersSorted(reg, Some(n), enabled, prios); r != [] && r[0] == x
  {
    var e := EnabledRenamers(reg, Some(n), enabled);
    var r := GetPluginRenamersSorted(reg, Some(n), enabled, prios);
    assert x in multiset(e);
    assert x in r;
    var j :| 0 <= j < |r| && r[j] == x;
    if j > 0 {
      assert Before(Some(n), prios, r[0], r[j]);
    }
    assert r[0] in multiset(e);
    assert r[0].key == n;
    FilterKeysUnique(reg, (y: Registration) => Considered(y, Some(n), enabled), (y: Registration) => y.key);
    KeysUniqueMember(e, (y: Registration) => y.key, r[0], x);
  }

  /** Without a name, a renamer with a lower configured priority is asked before one with a higher. */
  lemma PriorityOrder(reg: Registry, enabled: map<string, bool>, prios: map<string, int>, i: int, j: int)
    requires var r := GetPluginRenamersSorted(reg, None, enabled, prios);
      0 <= i < |r| && 0 <= j < |r| && Priority(prios, r[i]) < Priority(prios, r[j])
    ensures i < j
  {
    var r := GetPluginRenamersSorted(reg, None, enabled, prios);
    if j <= i {
      assert false;
    }
  }

  /* ---------------------------------------------------------------------- */
  /* Rename scripts                                                         */
  /* ---------------------------------------------------------------------- */

  /** A stored rename script: its name, the renamer it is for (may be null), and whether it is the default. */
  datatype RenameScript = RenameScript(name: string, renamerType: Option<string>, isDefault: bool)

  function ScriptByName(scripts: seq<RenameScript>, name: Option<string>): (r: Option<RenameScript>)
    ensures r.Some? ==> r.value in scripts && name == Some(r.value.name)
    ensures r.None? ==> forall s :: s in scripts ==> name != Some(s.name)
  {
    First(scripts, (s: RenameScript) => name == Some(s.name))
  }

  function DefaultScript(scripts: seq<RenameScript>): (r: Option<RenameScript>)
    ensures r.Some? ==> r.value in scripts && r.value.isDefault
    ensures r.None? ==> forall s :: s in scripts ==> !s.isDefault
  {
    First(scripts, (s: RenameScript) => s.isDefault)
  }

  /** `_getRenameScript`: the script by name, else the default one. */
  function GetRenameScript(scripts: seq<RenameScript>, name: Option<string>): (r: Option<RenameScript>)
    ensures r.Some? ==> r.value in scripts && (name == Some(r.value.name) || r.value.isDefault)
    ensures r.None? <==> ScriptByName(scripts, name).None? && DefaultScript(scripts).None?
    ensures ScriptByName(scripts, name).Some? ==> r == ScriptByName(scripts, name)
  {
    match ScriptByName(scripts, name)
    case Some(s) => Some(s)
    case None => DefaultScript(scripts)
  }

  /** `_getRenameScriptWithFallback`: by name, else the default, else the first script. */
  function GetRenameScriptWithFallback(scripts: seq<RenameScript>, name: Option<string>): (r: Option<RenameScript>)
    ensures r.Some? ==> r.value in scripts
    ensures r.None? <==> scripts == []
    ensures ScriptByName(scripts, name).Some? ==> r == ScriptByName(scripts, name)
    ensures ScriptByName(scripts, name).None? && DefaultScript(scripts).Some? ==> r == DefaultScript(scripts)
  {
    match ScriptByName(scripts, name)
    case Some(s) => Some(s)
    case None =>
      match DefaultScript(scripts)
      case Some(d) => Some(d)
      case None => if scripts == [] then None else Some(scripts[0])
  }

  /** `script?.Type`. */
  function ScriptType(script: Option<RenameScript>): Option<string> {
    if script.Some? then script.value.renamerType else None
  }

  /** The renamer settings the helper reads. */
  datatype Settings = Settings(enabled: map<string, bool>, priorities: map<string, int>)

  /* ---------------------------------------------------------------------- */
  /* GetFilename                                                            */
  /* ---------------------------------------------------------------------- */

  /** What a renamer does with a file-name request: set `Cancel`, and/or answer (null is ""). */
  datatype NameAnswer = NameAnswer(cancel: bool, name: string)

  /** A renamer that neither cancels nor answers is passed over. */
  predicate Silent(a: NameAnswer) {
    !a.cancel && a.name == ""
  }

  /** Asking the renamers in order: the first cancel gives null, the first non-empty answer wins. */
  function FirstName(rs: seq<Registration>, ask: Registration -> NameAnswer, fallback: string): (r: Option<string>)
    ensures (forall i :: 0 <= i < |rs| ==> Silent(ask(rs[i]))) ==> r == Some(fallback)
    ensures r.None? <==>
      exists i :: 0 <= i < |rs| && ask(rs[i]).cancel && forall j :: 0 <= j < i ==> Silent(ask(rs[j]))
    ensures r.Some? && r != Some(fallback) ==>
      exists i :: 0 <= i < |rs| && !Silent(ask(rs[i])) && r == Some(ask(rs[i]).name)
        && forall j :: 0 <= j < i ==> Silent(ask(rs[j]))
    ensures forall i ::
      (0 <= i < |rs| && !ask(rs[i]).cancel && ask(rs[i]).name != "" && forall j :: 0 <= j < i ==> Silent(ask(rs[j]))) ==>
      r == Some(ask(rs[i]).name)
  {
    if rs == [] then Some(fallback)
    else
      var a := ask(rs[0]);
      var rest := FirstName(rs[1..], ask, fallback);
      assert forall i :: 1 <= i < |rs| ==> rs[i] == rs[1..][i - 1];
      if a.cancel then None
      else if a.name == "" then rest
      else Some(a.name)
  }

  /**
   * The renamer that first cancels or answers decides: a cancel gives null,
   * an answer is the name.
   */
  lemma {:induction false} FirstNameAt(rs: seq<Registration>, ask: Registration -> NameAnswer, fallback: string, i: nat)
    requires i < |rs| && !Silent(ask(rs[i]))
    requires forall j :: 0 <= j < i ==> Silent(ask(rs[j]))
    ensures FirstName(rs, ask, fallback) == if ask(rs[i]).cancel then None else Some(ask(rs[i]).name)
  {
    if i > 0 {
      assert !Silent(ask(rs[1..][i - 1]));
      assert forall j :: 0 <= j < i - 1 ==> rs[1..][j] == rs[j + 1];
      FirstNameAt(rs[1..], ask, fallback, i - 1);
    }
  }

  /**
   * `GetFilename`: the script by name or the default selects the preferred
   * renamer; with no renamer answering, the current file name is kept.
   */
  function GetFilename(filePath: string, scripts: seq<RenameScript>, scriptName: Option<string>,
                       reg: Registry, cfg: Settings, ask: Registration -> NameAnswer): (r: Option<string>)
    ensures var rs := GetPluginRenamersSorted(reg, ScriptType(GetRenameScript(scripts, scriptName)), cfg.enabled, cfg.priorities);
      && ((forall i :: 0 <= i < |rs| ==> Silent(ask(rs[i]))) ==> r == Some(GetFileName(filePath)))
      && (r.None? <==> exists i :: 0 <= i < |rs| && ask(rs[i]).cancel && forall j :: 0 <= j < i ==> Silent(ask(rs[j])))
      && (forall i ::
            (0 <= i < |rs| && !ask(rs[i]).cancel && ask(rs[i]).name != "" && forall j :: 0 <= j < i ==> Silent(ask(rs[j]))) ==>
            r == Some(ask(rs[i]).name))
  {
    var script := GetRenameScript(scripts, scriptName);
    var rs := GetPluginRenamersSorted(reg, ScriptType(script), cfg.enabled, cfg.priorities);
    FirstName(rs, ask, GetFileName(filePath))
  }

  /**
   * In the sorted order, the first renamer that cancels or answers decides
   * the file name: null on a cancel, its answer otherwise.
   */
  lemma GetFilenameFirstAnswer(filePath: string, scripts: seq<RenameScript>, scriptName: Option<string>,
                               reg: Registry, cfg: Settings, ask: Registration -> NameAnswer, i: nat)
    requires var rs := GetPluginRenamersSorted(reg, ScriptType(GetRenameScript(scripts, scriptName)), cfg.enabled, cfg.priorities);
      && i < |rs| && !Silent(ask(rs[i])) && forall j :: 0 <= j < i ==> Silent(ask(rs[j]))
    ensures var rs := GetPluginRenamersSorted(reg, ScriptType(GetRenameScript(scripts, scriptName)), cfg.enabled, cfg.priorities);
      GetFilename(filePath, scripts, scriptName, reg, cfg, ask) == if ask(rs[i]).cancel then None else Some(ask(rs[i]).name)
  {
    var rs := GetPluginRenamersSorted(reg, ScriptType(GetRenameScript(scripts, scriptName)), cfg.enabled, cfg.priorities);
    FirstNameAt(rs, ask, GetFileName(filePath), i);
  }

  /* ---------------------------------------------------------------------- */
  /* GetDestination                                                         */
  /* ---------------------------------------------------------------------- */

  /** What a renamer does with a destination request: `Cancel`, a folder (by location; null is None) and a path. */
  datatype MoveAnswer = MoveAnswer(cancel: bool, folder: Option<string>, destPath: string)

  /** `GetByImportLocation`: the first import folder at that location. */
  function FolderAt(folders: seq<ImportFolder>, location: string): (r: Option<ImportFolder>)
    ensures r.Some? ==> r.value in folders && r.value.location == location
    ensures r.None? ==> forall f :: f in folders ==> f.location != location
  {
    First(folders, (f: ImportFolder) => f.location == location)
  }

  /** An answer the loop accepts: a non-empty path and a folder the store knows. */
  predicate Usable(a: MoveAnswer, folders: seq<ImportFolder>) {
    !a.cancel && a.destPath != "" && a.folder.Some? && FolderAt(folders, a.folder.value).Some?
  }

  /** An answer the loop passes over: no cancel, and an empty path, no folder, or an unknown location. */
  predicate Skipped(a: MoveAnswer, folders: seq<ImportFolder>) {
    !a.cancel && !Usable(a, folders)
  }

  /** Every renamer before position `i` was passed over. */
  predicate ReachedAt(rs: seq<Registration>, ask: Registration -> MoveAnswer, folders: seq<ImportFolder>, i: int) {
    0 <= i < |rs| && forall j :: 0 <= j < i ==> Skipped(ask(rs[j]), folders)
  }

  /** The destination loop: the first cancel gives no destination; the first usable answer wins. */
  function FirstDestination(rs: seq<Registration>, ask: Registration -> MoveAnswer, filePath: string,
                            folders: seq<ImportFolder>): (r: Option<(ImportFolder, string)>)
    ensures r.Some? ==> r.value.0 in folders
    ensures r.Some? ==> exists d: string :: d != "" && r.value.1 == RemoveFilename(filePath, d)
  {
    if rs == [] then None
    else
      var a := ask(rs[0]);
      if a.cancel then None
      else if a.destPath == "" || a.folder.None? then FirstDestination(rs[1..], ask, filePath, folders)
      else
        var d := RemoveFilename(filePath, a.destPath);
        match FolderAt(folders, a.folder.value)
        case Some(f) => Some((f, d))
        case None => FirstDestination(rs[1..], ask, filePath, folders)
  }

  /**
   * The loop decides at the first renamer that is not passed over: a
   * cancel there gives no destination, a usable answer gives its folder and
   * its path without the file name, and when every renamer is passed over
   * there is no destination.
   */
  lemma {:induction false} FirstDestinationDecides(rs: seq<Registration>, ask: Registration -> MoveAnswer, filePath: string,
                                                   folders: seq<ImportFolder>)
    ensures var r := FirstDestination(rs, ask, filePath, folders);
      && (forall i :: ReachedAt(rs, ask, folders, i) && ask(rs[i]).cancel ==> r.None?)
      && (forall i :: ReachedAt(rs, ask, folders, i) && Usable(ask(rs[i]), folders) ==>
            r == Some((FolderAt(folders, ask(rs[i]).folder.value).value, RemoveFilename(filePath, ask(rs[i]).destPath))))
      && ((forall i :: 0 <= i < |rs| ==> Skipped(ask(rs[i]), folders)) ==> r.None?)
  {
    if rs != [] {
      var tail := rs[1..];
      FirstDestinationDecides(tail, ask, filePath, folders);
      if Skipped(ask(rs[0]), folders) {
        forall i | ReachedAt(rs, ask, folders, i) && i > 0 ensures ReachedAt(tail, ask, folders, i - 1) {
          forall j | 0 <= j < i - 1 ensures Skipped(ask(tail[j]), folders) {
            assert tail[j] == rs[j + 1];
          }
        }
      }
    }
  }

  /**
   * `GetDestination`: the script by name, else the default, else the first
   * script selects the preferred renamer; the destination path has the
   * file's own name stripped and lies in a known import folder.
   */
  function GetDestination(filePath: string, scripts: seq<RenameScript>, scriptName: Option<string>,
                          reg: Registry, cfg: Settings, ask: Registration -> MoveAnswer,
                          folders: seq<ImportFolder>): (r: Option<(ImportFolder, string)>)
    ensures r.Some? ==> r.value.0 in folders
    ensures r.Some? ==> exists d: string :: d != "" && r.value.1 == RemoveFilename(filePath, d) && r.value.1 <= d
  {
    var script := GetRenameScriptWithFallback(scripts, scriptName);
    var rs := GetPluginRenamersSorted(reg, ScriptType(script), cfg.enabled, cfg.priorities);
    FirstDestination(rs, ask, filePath, folders)
  }

  /**
   * In the sorted order of the script's renamers, the first renamer that is
   * not passed over decides the destination: none on a cancel, its folder
   * and stripped path on a usable answer; none when all are passed over.
   */
  lemma GetDestinationFirstAnswer(filePath: string, scripts: seq<RenameScript>, scriptName: Option<string>,
                                  reg: Registry, cfg: Settings, ask: Registration -> MoveAnswer,
                                  folders: seq<ImportFolder>)
    ensures var rs := GetPluginRenamersSorted(reg, ScriptType(GetRenameScriptWithFallback(scripts, scriptName)), cfg.enabled, cfg.priorities);
      var r := GetDestination(filePath, scripts, scriptName, reg, cfg, ask, folders);
      && (forall i :: ReachedAt(rs, ask, folders, i) && ask(rs[i]).cancel ==> r.None?)
      && (forall i :: ReachedAt(rs, ask, folders, i) && Usable(ask(rs[i]), folders) ==>
            r == Some((FolderAt(folders, ask(rs[i]).folder.value).value, RemoveFilename(filePath, ask(rs[i]).destPath))))
      && ((forall i :: 0 <= i < |rs| ==> Skipped(ask(rs[i]), folders)) ==> r.None?)
  {
    var rs := GetPluginRenamersSorted(reg, ScriptType(GetRenameScriptWithFallback(scripts, scriptName)), cfg.enabled, cfg.priorities);
    FirstDestinationDecides(rs, ask, filePath, folders);
  }
}
