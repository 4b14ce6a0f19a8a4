/** AppLocker's path variables by name, and the directories each of them stands for. */
module VariableTable {
  import opened Text
  import opened PathRules
  import opened ExpandTheorems

  /** The system drive: that of the Windows directory, when it has one. */
  ghost predicate IsSystemDrive(drive: string, root: string) {
    drive == if |root| > 1 && root[1] == ':' then [root[0], ':'] else "C:"
  }

  /** The directories a variable is documented to stand for. */
  ghost predicate StandsFor(v: string, values: seq<string>, root: string, drive: string) {
    || (v == "%WINDIR%" && values == [root])
    || (v == "%SYSTEM32%" && values == [root + "\\SYSTEM32", root + "\\SYSWOW64"])
    || (v == "%OSDRIVE%" && values == [drive])
    || (v == "%PROGRAMFILES%" && values == [drive + "\\PROGRAM FILES", drive + "\\PROGRAM FILES (X86)"])
  }

  lemma DriveIs(drive: string, root: string)
    requires IsSystemDrive(drive, root)
    ensures drive == DriveOf(root)
  {
  }

  lemma TableSays(v: string, values: seq<string>, root: string, drive: string) returns (k: nat)
    requires root != "" && StandsFor(v, values, root, drive) && drive == DriveOf(root)
    ensures k < 4 && Substitutions(root)[k].variable == v && Substitutions(root)[k].values == values
  {
    k := if v[1] == 'W' then 0 else if v[1] == 'S' then 1 else if v[1] == 'O' then 2 else 3;
  }

  /** A rule that begins with a variable stands for its rest below each of the variable's directories. */
  lemma VariableMeans(v: string, values: seq<string>, drive: string, rest: string, pattern: string,
                      windowsRoot: string)
    requires '%' !in RootOf(windowsRoot) && '%' !in rest && Normalise(pattern) == v + rest
    requires IsSystemDrive(drive, RootOf(windowsRoot)) && StandsFor(v, values, RootOf(windowsRoot), drive)
    ensures Expand(pattern, windowsRoot) == Resolved(values, rest)
  {
    DriveIs(drive, RootOf(windowsRoot));
    var k := TableSays(v, values, RootOf(windowsRoot), drive);
    MeansBy(k, v, values, rest, pattern, windowsRoot);
  }

  lemma MeansBy(k: nat, v: string, values: seq<string>, rest: string, pattern: string, windowsRoot: string)
    requires '%' !in RootOf(windowsRoot) && '%' !in rest && Normalise(pattern) == v + rest
    requires k < 4 && Substitutions(RootOf(windowsRoot))[k].variable == v
    requires Substitutions(RootOf(windowsRoot))[k].values == values
    ensures Expand(pattern, windowsRoot) == Resolved(values, rest)
  {
    ExpandMeaning(k, rest, pattern, windowsRoot);
  }

  /** A rule that mentions removable media stands for no directory at all. */
  lemma RemovableIsNowhere(v: string, pattern: string, windowsRoot: string)
    requires v == "%REMOVABLE%" || v == "%HOT%"
    ensures Occurs(Normalise(pattern), v) ==> Expand(pattern, windowsRoot) == []
  {
  }
}
