/** The installer's `add_to_path` on POSIX systems: shell start-up files under the
    home directory get one export line appended, at most once. */
module ShellPath {
  import opened Text

  datatype Shell = Bash | Zsh | Fish

  /** `detect_shell`, given the value of `SHELL`. */
  function DetectShell(shell: string): Shell
  {
    if Contains(shell, "zsh") then Zsh else if Contains(shell, "fish") then Fish else Bash
  }

  /** The start-up files: `.bashrc`, `.bash_profile`, `.zshrc` and
      `.config/fish/config.fish`. */
  datatype Rc = BashRc | BashProfile | ZshRc | FishConfig

  /** `SHELL_RC_FILES`. */
  function RcFiles(shell: Shell): seq<Rc>
  {
    match shell
    case Bash => [BashRc, BashProfile]
    case Zsh => [ZshRc]
    case Fish => [FishConfig]
  }

  function Owner(rc: Rc): Shell
  {
    match rc
    case BashRc => Bash
    case BashProfile => Bash
    case ZshRc => Zsh
    case FishConfig => Fish
  }

  const SHELLS: seq<Shell> := [Bash, Zsh, Fish]

  function ExportLine(shell: Shell, directory: string): string
  {
    if shell == Fish then "set -gx PATH \"" + directory + "\" $PATH"
    else "export PATH=\"" + directory + ":$PATH\""
  }

  const MARKER: string := "# Added by ZLayer installer"

  function Block(shell: Shell, directory: string): string
  {
    "\n" + MARKER + "  " + "\n" + ExportLine(shell, directory) + "\n"
  }

  /** A start-up file and what the user may do with it. */
  datatype RcFile = RcFile(text: string, readable: bool, writable: bool)

  /** The file needs the line and can be given it. */
  predicate Wants(file: RcFile, directory: string)
  {
    file.readable && file.writable && !Contains(file.text, directory)
  }

  function Edited(file: RcFile, shell: Shell, directory: string): RcFile
  {
    if Wants(file, directory) then file.(text := file.text + Block(shell, directory)) else file
  }

  type Files = map<Rc, RcFile>

  /** Each of `visited` that exists has been edited by the rule of its own shell. */
  ghost function EditedSet(files: Files, visited: set<Rc>, directory: string): Files
  {
    map rc | rc in files :: if rc in visited then Edited(files[rc], Owner(rc), directory) else files[rc]
  }

  /** The outcome of `add_to_path`; no shell is mentioned. */
  ghost function AllEdited(files: Files, directory: string): Files
  {
    EditedSet(files, {BashRc, BashProfile, ZshRc, FishConfig}, directory)
  }

  predicate WantsAt(files: Files, rc: Rc, directory: string)
  {
    rc in files && Wants(files[rc], directory)
  }

  /** Those of the files that want the line, in the given order. */
  function Wanting(files: Files, rcs: seq<Rc>, directory: string): seq<Rc>
  {
    if rcs == [] then []
    else
      var front, last := Wanting(files, rcs[..|rcs| - 1], directory), rcs[|rcs| - 1];
      if WantsAt(files, last, directory) then front + [last] else front
  }

  /** The files after visiting `rcs` in order, and the list of what was modified. */
  ghost predicate Visited(start: Files, now: Files, modified: seq<Rc>, rcs: seq<Rc>, directory: string)
  {
    now == EditedSet(start, Elements(rcs), directory) && modified == Wanting(start, rcs, directory)
  }

  /** All start-up files, those of the detected shell first. */
  function VisitOrder(shell: Shell): seq<Rc>
  {
    match shell
    case Bash => [BashRc, BashProfile, ZshRc, FishConfig]
    case Zsh => [ZshRc, BashRc, BashProfile, FishConfig]
    case Fish => [FishConfig, BashRc, BashProfile, ZshRc]
  }

  /** The home directory's start-up files, those that exist. */
  class Home {
    var files: Files

    constructor (files: Files)
      ensures this.files == files
    {
      this.files := files;
    }

    /** Read the file, and append to it unless the directory is already there. */
    method EditOne(rc: Rc, directory: string) returns (changed: bool)
      modifies this
      ensures changed <==> WantsAt(old(files), rc, directory)
      ensures files == EditedSet(old(files), {rc}, directory)
    {
      changed := false;
      if rc in files {
        var file := files[rc];
        if file.readable && !Contains(file.text, directory) && file.writable {
          files := files[rc := file.(text := file.text + Block(Owner(rc), directory))];
          changed := true;
        }
      }
    }

    /** The start-up files of one shell, none of them visited yet. */
    method EditShell(shell: Shell, directory: string, modified: seq<Rc>, ghost start: Files, ghost visited: seq<Rc>)
      returns (r: seq<Rc>)
      requires Visited(start, files, modified, visited, directory)
      requires forall rc :: rc in RcFiles(shell) ==> rc !in visited
      modifies this
      ensures Visited(start, files, r, visited + RcFiles(shell), directory)
    {
      r := modified;
      var rcs := RcFiles(shell);
      assert visited + rcs[..0] == visited;
      for i := 0 to |rcs|
        invariant Visited(start, files, r, visited + rcs[..i], directory)
      {
        ghost var seen := visited + rcs[..i];
        assert rcs[i] !in seen;
        ghost var before, was := files, r;
        var changed := EditOne(rcs[i], directory);
        if changed { r := r + [rcs[i]]; }
        OneMore(start, before, was, seen, directory, rcs[i]);
        assert seen + [rcs[i]] == visited + rcs[..i + 1];
      }
      assert rcs[..|rcs|] == rcs;
    }

    /** `add_to_path`, given the value of `SHELL`: the detected shell's files first,
        then the other shells'. */
    method AddToPath(directory: string, shellVariable: string) returns (modified: seq<Rc>)
      modifies this
      ensures files == AllEdited(old(files), directory)
      ensures modified == Wanting(old(files), VisitOrder(DetectShell(shellVariable)), directory)
    {
      ghost var start := files;
      var shell := DetectShell(shellVariable);
      NothingVisited(start, directory);
      modified := EditShell(shell, directory, [], start, []);
      ghost var visited := [] + RcFiles(shell);
      for i := 0 to |SHELLS|
        invariant visited == VisitedBy(shell, i)
        invariant Visited(start, files, modified, visited, directory)
      {
        if SHELLS[i] != shell {
          NotYetVisited(shell, i);
          modified := EditShell(SHELLS[i], directory, modified, start, visited);
          visited := visited + RcFiles(SHELLS[i]);
        }
      }
      AllVisited(shell);
    }
  }

  /** What has been visited before turning to the `i`-th shell of the table. */
  ghost function VisitedBy(shell: Shell, i: nat): seq<Rc>
    requires i <= |SHELLS|
  {
    if i == 0 then RcFiles(shell)
    else if SHELLS[i - 1] == shell then VisitedBy(shell, i - 1)
    else VisitedBy(shell, i - 1) + RcFiles(SHELLS[i - 1])
  }

  lemma NotYetVisited(shell: Shell, i: nat)
    requires i < |SHELLS| && SHELLS[i] != shell
    ensures forall rc :: rc in RcFiles(SHELLS[i]) ==> rc !in VisitedBy(shell, i)
  {
    forall rc | rc in VisitedBy(shell, i) ensures Owner(rc) != SHELLS[i] { VisitedOwner(shell, i, rc); }
    assert SHELLS[0] == Bash && SHELLS[1] == Zsh && SHELLS[2] == Fish;
    forall rc | rc in RcFiles(SHELLS[i]) ensures Owner(rc) == SHELLS[i] {}
  }

  lemma {:induction false} VisitedOwner(shell: Shell, i: nat, rc: Rc)
    requires i <= |SHELLS| && rc in VisitedBy(shell, i)
    ensures Owner(rc) == shell || exists k :: 0 <= k < i && Owner(rc) == SHELLS[k]
  {
    if i > 0 && rc in VisitedBy(shell, i - 1) { VisitedOwner(shell, i - 1, rc); }
  }

  lemma AllVisited(shell: Shell)
    ensures VisitedBy(shell, |SHELLS|) == VisitOrder(shell)
    ensures Elements(VisitOrder(shell)) == {BashRc, BashProfile, ZshRc, FishConfig}
  {
    assert SHELLS[0] == Bash && SHELLS[1] == Zsh && SHELLS[2] == Fish;
    assert VisitedBy(shell, 0) == RcFiles(shell);
    assert VisitedBy(shell, 1) == if shell == Bash then RcFiles(shell) else RcFiles(shell) + RcFiles(Bash);
    assert VisitedBy(shell, 2) == if shell == Zsh then VisitedBy(shell, 1) else VisitedBy(shell, 1) + RcFiles(Zsh);
    forall rc: Rc ensures rc in VisitOrder(shell) {
      var o := VisitOrder(shell);
      assert rc == o[0] || rc == o[1] || rc == o[2] || rc == o[3];
    }
  }

  lemma NothingVisited(files: Files, directory: string)
    ensures Visited(files, files, [], [], directory)
  {
  }

  lemma OneMore(start: Files, now: Files, modified: seq<Rc>, visited: seq<Rc>, directory: string, rc: Rc)
    requires Visited(start, now, modified, visited, directory) && rc !in visited
    ensures WantsAt(now, rc, directory) == WantsAt(start, rc, directory)
    ensures var r := if WantsAt(start, rc, directory) then modified + [rc] else modified;
            Visited(start, EditedSet(now, {rc}, directory), r, visited + [rc], directory)
  {
    assert (visited + [rc])[..|visited|] == visited;
    assert Elements(visited + [rc]) == Elements(visited) + {rc};
  }

  // ------------------------------------------------------------ what it does

  lemma BlockMentions(shell: Shell, directory: string)
    ensures Contains(Block(shell, directory), directory)
  {
    var head := "\n" + MARKER + "  " + "\n";
    if shell == Fish {
      var before, after := head + "set -gx PATH \"", "\" $PATH" + "\n";
      assert Block(shell, directory) == before + directory + after;
      ContainsMiddle(before, directory, after);
    } else {
      var before, after := head + "export PATH=\"", ":$PATH\"" + "\n";
      assert Block(shell, directory) == before + directory + after;
      ContainsMiddle(before, directory, after);
    }
  }

  lemma {:induction false} ContainsLater(front: string, hay: string, needle: string)
    requires Contains(hay, needle)
    ensures Contains(front + hay, needle)
  {
    if front == [] {
      assert front + hay == hay;
    } else {
      ContainsLater(front[1..], hay, needle);
      assert (front + hay)[1..] == front[1..] + hay;
    }
  }

  /** Files are only ever appended to, and a file that can be read and written
      mentions the directory afterwards. */
  lemma OnlyAppends(files: Files, directory: string, rc: Rc)
    requires rc in files
    ensures var now := AllEdited(files, directory)[rc];
            && files[rc].text <= now.text
            && now.readable == files[rc].readable && now.writable == files[rc].writable
            && (files[rc].readable && files[rc].writable ==> Contains(now.text, directory))
  {
    var file := files[rc];
    if Wants(file, directory) {
      BlockMentions(Owner(rc), directory);
      ContainsLater(file.text, Block(Owner(rc), directory), directory);
    }
  }

  /** A file holds the text of the export line afterwards exactly when it did before,
      or could be read and written and did not mention the directory. */
  lemma HoldsTheTextIff(files: Files, directory: string, rc: Rc)
    requires rc in files
    ensures var line, now := ExportLine(Owner(rc), directory), AllEdited(files, directory)[rc];
            Contains(now.text, line) <==> Contains(files[rc].text, line) || Wants(files[rc], directory)
  {
    var file, line := files[rc], ExportLine(Owner(rc), directory);
    if Wants(file, directory) {
      ContainsMiddle("\n" + MARKER + "  " + "\n", line, "\n");
      ContainsLater(file.text, Block(Owner(rc), directory), line);
    }
  }

  /** And the same for the export line as a line of its own. */
  lemma HoldsTheLineIff(files: Files, directory: string, rc: Rc)
    requires rc in files && '\n' !in directory
    ensures var line, now := ExportLine(Owner(rc), directory), AllEdited(files, directory)[rc];
            line in Split(now.text, '\n') <==> line in Split(files[rc].text, '\n') || Wants(files[rc], directory)
  {
    var file, line := files[rc], ExportLine(Owner(rc), directory);
    if Wants(file, directory) { LineAdded(file.text, line); }
  }

  lemma LineAdded(text: string, line: string)
    requires '\n' !in line
    ensures line in Split(text + ("\n" + MARKER + "  " + "\n" + line + "\n"), '\n')
  {
    var mark := MARKER + "  ";
    var front := text + ['\n'] + mark;
    assert text + ("\n" + MARKER + "  " + "\n" + line + "\n") == (front + ['\n'] + line) + ['\n'] + "";
    SplitAt(front + ['\n'] + line, "", '\n');
    SplitAt(front, line, '\n');
    SplitWhole(line, '\n');
    assert line in [line];
  }

  /** A longer name in a file keeps the line out of it: `/a2` is taken for `/a`. */
  lemma LongerNameKeepsItOut()
    ensures var files := map[ZshRc := RcFile("/a2", true, true)];
            AllEdited(files, "/a") == files && !Contains(files[ZshRc].text, ExportLine(Zsh, "/a"))
  {
    ContainsMiddle("", "/a", "2");
    assert "" + "/a" + "2" == "/a2";
    assert |ExportLine(Zsh, "/a")| > |"/a2"|;
  }

  /** A second call changes nothing and returns the empty list, whichever shell
      either call detects. */
  lemma SecondCallDoesNothing(files: Files, directory: string, shell: Shell)
    ensures var edited := AllEdited(files, directory);
            AllEdited(edited, directory) == edited && Wanting(edited, VisitOrder(shell), directory) == []
  {
    var edited := AllEdited(files, directory);
    forall rc: Rc ensures !WantsAt(edited, rc, directory) {
      if rc in files { OnlyAppends(files, directory, rc); }
    }
    forall rc | rc in edited ensures Edited(edited[rc], Owner(rc), directory) == edited[rc] {
      assert !WantsAt(edited, rc, directory);
    }
    NoneWanting(edited, VisitOrder(shell), directory);
  }

  lemma {:induction false} NoneWanting(files: Files, rcs: seq<Rc>, directory: string)
    requires forall rc :: !WantsAt(files, rc, directory)
    ensures Wanting(files, rcs, directory) == []
  {
    if rcs != [] { NoneWanting(files, rcs[..|rcs| - 1], directory); }
  }
}

/** `_add_to_path_windows`: the user's `Path` value in the registry and the `PATH`
    of the running process. */
module WindowsPath {
  import opened Text

  /** Registry value types; anything but the first two is replaced. */
  datatype Kind = Sz | ExpandSz | OtherKind

  function LowerChar(c: char): char
  {
    if 'A' <= c <= 'Z' then c - 'A' + 'a' else c
  }

  /** `s.lower()` on ASCII text. */
  function Lower(s: string): (r: string)
    ensures |r| == |s| && forall i :: 0 <= i < |s| ==> r[i] == LowerChar(s[i])
  {
    seq(|s|, i requires 0 <= i < |s| => LowerChar(s[i]))
  }

  /** `s.rstrip("\\")`. */
  function StripSlashes(s: string): string
  {
    if s != [] && s[|s| - 1] == '\\' then StripSlashes(s[..|s| - 1]) else s
  }

  function NonEmpty(parts: seq<string>): (r: seq<string>)
    ensures forall p :: p in r <==> p in parts && p != ""
  {
    if parts == [] then []
    else if parts[0] == "" then NonEmpty(parts[1..])
    else [parts[0]] + NonEmpty(parts[1..])
  }

  /** `[e for e in value.split(";") if e]`. */
  function Entries(value: string): seq<string>
  {
    NonEmpty(Split(value, ';'))
  }

  /** The entry names the directory, after slashes, `normpath` and case. */
  predicate Same(entry: string, directory: string, normpath: string -> string)
  {
    Lower(normpath(StripSlashes(entry))) == Lower(StripSlashes(directory))
  }

  predicate Listed(entries: seq<string>, directory: string, normpath: string -> string)
  {
    exists i :: 0 <= i < |entries| && Same(entries[i], directory, normpath)
  }

  /** The value to write; the entries are not empty strings and hold no `;`. */
  function NewValue(value: string, directory: string): string
  {
    var entries := Entries(value);
    if entries == [] then directory else Join([directory] + entries, ';')
  }

  /** `any(e.lower() == target.lower() for e in normalised)`. */
  method AnySame(entries: seq<string>, directory: string, normpath: string -> string) returns (found: bool)
    ensures found <==> Listed(entries, directory, normpath)
  {
    for i := 0 to |entries|
      invariant forall j :: 0 <= j < i ==> !Same(entries[j], directory, normpath)
    {
      if Same(entries[i], directory, normpath) { return true; }
    }
    found := false;
  }

  class Environment {
    var value: Option<string>
    var kind: Kind
    var process: string

    constructor (value: Option<string>, kind: Kind, process: string)
      ensures this.value == value && this.kind == kind && this.process == process
    {
      this.value, this.kind, this.process := value, kind, process;
    }

    /** `normpath` is the platform's; the directory has already been through it. */
    method AddToPath(directory: string, normpath: string -> string) returns (modified: bool)
      modifies this
      ensures modified <==> !Listed(Entries(Current(old(value))), directory, normpath)
      ensures !modified ==> value == old(value) && kind == old(kind) && process == old(process)
      ensures modified ==> value == Some(NewValue(Current(old(value)), directory))
      ensures modified ==> kind == if old(value).Some? && old(kind) == Sz then Sz else ExpandSz
      ensures modified ==> process == NewProcess(old(process), directory)
    {
      var current, currentKind := Current(value), if value.Some? then kind else ExpandSz;
      var entries := Entries(current);
      var listed := AnySame(entries, directory, normpath);
      if listed { return false; }
      value := Some(if entries != [] then Join([directory] + entries, ';') else directory);
      kind := if currentKind == Sz || currentKind == ExpandSz then currentKind else ExpandSz;
      if !Contains(Lower(process), Lower(directory)) {
        process := if process != "" then directory + ";" + process else directory;
      }
      modified := true;
    }
  }

  function Current(value: Option<string>): string
  {
    match value case None => "" case Some(v) => v
  }

  function NewProcess(process: string, directory: string): string
  {
    if Contains(Lower(process), Lower(directory)) then process
    else if process != "" then directory + ";" + process
    else directory
  }

  // ------------------------------------------------------------ what it does

  lemma {:induction false} NonEmptyConcat(a: seq<string>, b: seq<string>)
    ensures NonEmpty(a + b) == NonEmpty(a) + NonEmpty(b)
  {
    if a == [] {
      assert a + b == b;
    } else {
      NonEmptyConcat(a[1..], b);
      assert (a + b)[1..] == a[1..] + b && (a + b)[0] == a[0];
    }
  }

  lemma {:induction false} NonEmptyKeeps(parts: seq<string>)
    requires forall i :: 0 <= i < |parts| ==> parts[i] != ""
    ensures NonEmpty(parts) == parts
  {
    if parts != [] {
      NonEmptyKeeps(parts[1..]);
    }
  }

  lemma EntriesAreClean(value: string)
    ensures forall i :: 0 <= i < |Entries(value)| ==> Entries(value)[i] != "" && ';' !in Entries(value)[i]
  {
    SplitHasNoSep(value, ';');
    forall i | 0 <= i < |Entries(value)| ensures Entries(value)[i] != "" && ';' !in Entries(value)[i] {
      assert Entries(value)[i] in NonEmpty(Split(value, ';'));
    }
  }

  /** Reading the new value back gives the directory's own entries in front of all
      the previous ones, in their order. */
  lemma NewEntries(value: string, directory: string)
    ensures Entries(NewValue(value, directory)) == Entries(directory) + Entries(value)
  {
    var entries := Entries(value);
    EntriesAreClean(value);
    if entries == [] {
      assert Entries(directory) + [] == Entries(directory);
    } else {
      SplitJoin(entries, ';');
      assert ([directory] + entries)[1..] == entries;
      SplitAt(directory, Join(entries, ';'), ';');
      NonEmptyConcat(Split(directory, ';'), entries);
      NonEmptyKeeps(entries);
    }
  }

  /** For a directory without `;` that is exactly one new entry, in front. */
  lemma OneNewEntry(value: string, directory: string)
    requires directory != "" && ';' !in directory
    ensures Entries(NewValue(value, directory)) == [directory] + Entries(value)
  {
    NewEntries(value, directory);
    OwnEntry(directory);
  }

  lemma OwnEntry(directory: string)
    requires directory != "" && ';' !in directory
    ensures Entries(directory) == [directory]
  {
    SplitWhole(directory, ';');
    var parts := [directory];
    assert parts[1..] == [] && NonEmpty(parts) == [parts[0]] + NonEmpty(parts[1..]);
  }

  lemma ListedConcat(a: seq<string>, b: seq<string>, directory: string, normpath: string -> string)
    ensures Listed(a + b, directory, normpath) <==> Listed(a, directory, normpath) || Listed(b, directory, normpath)
  {
    if i :| 0 <= i < |a + b| && Same((a + b)[i], directory, normpath) {
      assert if i < |a| then a[i] == (a + b)[i] else b[i - |a|] == (a + b)[i];
    }
    if i :| 0 <= i < |a| && Same(a[i], directory, normpath) {
      assert (a + b)[i] == a[i];
    }
    if i :| 0 <= i < |b| && Same(b[i], directory, normpath) {
      assert (a + b)[|a| + i] == b[i];
    }
  }

  /** After an update the next call finds the directory, and changes nothing,
      exactly when one of the directory's own entries names it. */
  lemma SecondCallIsNoOpIff(value: string, directory: string, normpath: string -> string)
    requires !Listed(Entries(value), directory, normpath)
    ensures Listed(Entries(NewValue(value, directory)), directory, normpath) <==>
            Listed(Entries(directory), directory, normpath)
  {
    NewEntries(value, directory);
    ListedConcat(Entries(directory), Entries(value), directory, normpath);
  }

  /** In particular when the directory, without `;`, is its own normal form up to
      trailing slashes and case, and only then. */
  lemma SecondCallOnPlainDirectory(value: string, directory: string, normpath: string -> string)
    requires directory != "" && ';' !in directory && !Listed(Entries(value), directory, normpath)
    ensures Listed(Entries(NewValue(value, directory)), directory, normpath) <==>
            Lower(normpath(StripSlashes(directory))) == Lower(StripSlashes(directory))
  {
    SecondCallIsNoOpIff(value, directory, normpath);
    OwnEntry(directory);
    ListedOne(directory, normpath);
  }

  lemma ListedOne(directory: string, normpath: string -> string)
    ensures Listed([directory], directory, normpath) <==> Same(directory, directory, normpath)
  {
    assert [directory][0] == directory;
  }

  /** The directory is normalized before it gets here. Such a directory, without
      `;`, is found again unless it ends in a backslash; then the exact condition is
      that its stripped form is normal too. */
  lemma SecondCallOnNormalDirectory(value: string, directory: string, normpath: string -> string)
    requires directory != "" && ';' !in directory && normpath(directory) == directory
    requires !Listed(Entries(value), directory, normpath)
    ensures Listed(Entries(NewValue(value, directory)), directory, normpath) <==>
            || directory[|directory| - 1] != '\\'
            || Lower(normpath(StripSlashes(directory))) == Lower(StripSlashes(directory))
  {
    SecondCallOnPlainDirectory(value, directory, normpath);
  }

  /** A normal directory that is added again: its own entries are its pieces. */
  lemma SemicolonIsAddedAgain()
    ensures var same := (s: string) => s;
            && !Listed(Entries(""), "a;b", same)
            && !Listed(Entries(NewValue("", "a;b")), "a;b", same)
  {
    var same := (s: string) => s;
    SplitWhole("", ';');
    assert [""][1..] == [] && NonEmpty([""]) == [];
    SecondCallIsNoOpIff("", "a;b", same);
    SplitAt("a", "b", ';');
    assert "a" + [';'] + "b" == "a;b";
    OwnEntry("a");
    OwnEntry("b");
    NonEmptyConcat(Split("a", ';'), Split("b", ';'));
    assert Entries("a;b") == ["a", "b"];
    assert Lower("a;b")[1] == ';' && |Lower("a")| == 1 && |Lower("b")| == 1;
  }

  /** Another: the root, whose stripped form is empty and normalizes to a dot. */
  lemma RootIsAddedAgain(normpath: string -> string)
    requires normpath("\\") == "\\" && normpath("") == "."
    ensures !Listed(Entries(""), "\\", normpath)
    ensures !Listed(Entries(NewValue("", "\\")), "\\", normpath)
  {
    SplitWhole("", ';');
    assert [""][1..] == [] && NonEmpty([""]) == [];
    assert "\\"[..0] == "" && StripSlashes("\\") == "";
    SecondCallOnPlainDirectory("", "\\", normpath);
    assert |Lower(".")| == 1;
  }

  /** The process path keeps all its entries; the directory's come in front. */
  lemma ProcessEntries(process: string, directory: string)
    ensures Split(NewProcess(process, directory), ';') ==
            if Contains(Lower(process), Lower(directory)) then Split(process, ';')
            else if process == "" then Split(directory, ';')
            else Split(directory, ';') + Split(process, ';')
  {
    SplitAt(directory, process, ';');
  }

  /** The running process then has the directory as an entry exactly when it had
      it, or its text did not mention it; with a `;` it never has. */
  lemma ProcessEntryIff(process: string, directory: string)
    ensures directory in Split(NewProcess(process, directory), ';') <==>
            && ';' !in directory
            && (directory in Split(process, ';') || !Contains(Lower(process), Lower(directory)))
  {
    ProcessEntries(process, directory);
    SplitHasNoSep(NewProcess(process, directory), ';');
    if ';' !in directory {
      SplitWhole(directory, ';');
      assert directory in [directory];
    }
  }

  /** A longer name in the process path keeps the directory out of it. */
  lemma LongerNameHidesDirectory()
    ensures NewProcess("C:\\zlayer-old", "C:\\zlayer") == "C:\\zlayer-old"
    ensures "C:\\zlayer" !in Split("C:\\zlayer-old", ';')
  {
    var old_, directory := "C:\\zlayer-old", "C:\\zlayer";
    assert old_ == directory + "-old";
    assert Lower(old_) == "" + Lower(directory) + Lower("-old");
    ContainsMiddle("", Lower(directory), Lower("-old"));
    SplitWhole(old_, ';');
  }
}
