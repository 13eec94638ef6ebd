/**
 The `--install-the-shim` mode: copy the running executable over
 `<home>/.cargo/bin/rustfmt`, keeping the original as a one-time backup.
 The file system is a map from paths to file contents; the home directory and
 the current executable are inputs, absent when the host cannot supply them.
 */
module Installer {
  import opened Wrappers

  newtype byte = x: int | 0 <= x < 256

  type Path = string
  type Bytes = seq<byte>
  type FileSystem = map<Path, Bytes>

  /** The path separator of the host. */
  const Separator: char := '/'

  /** The suffix that names the backup of the real formatter. */
  const BackupSuffix: string := ".bk"

  /** The running executable: its path and the extension of its file name, if any. */
  datatype Exe = Exe(path: Path, extension: Option<string>)

  /** Each way installation panics, in the order `install` checks them. */
  datatype InstallError =
    | NoHomeDir      // "could not get home dir"
    | NoCurrentExe   // "could not get current exe"
    | BackupFailed   // "could not back up existing rustfmt"
    | CopyFailed     // "could not copy exe"

  /** `PathBuf::push` adds a separator unless the path is empty or already ends in one. */
  predicate NeedsSeparator(base: Path) {
    |base| > 0 && base[|base| - 1] != Separator
  }

  /** `PathBuf::join` with a relative, non-empty component. */
  function Join(base: Path, component: string): Path
    requires |component| > 0 && component[0] != Separator
  {
    if NeedsSeparator(base) then base + [Separator] + component else base + component
  }

  /** `"." + ext` when the executable has an extension, else nothing. */
  function ExtensionSuffix(extension: Option<string>): string {
    match extension
    case Some(ext) => "." + ext
    case None => ""
  }

  /** Joining appends the component after at most one separator. */
  lemma JoinAppends(base: Path, component: string)
    requires |component| > 0 && component[0] != Separator
    ensures Join(base, component) == base + ((if NeedsSeparator(base) then [Separator] else []) + component)
    ensures NeedsSeparator(Join(base, component)) == (component[|component| - 1] != Separator)
  {
  }

  /** Regrouping a concatenation of three strings. */
  lemma AppendAssoc(a: string, b: string, c: string)
    ensures a + b + c == a + (b + c)
  {
  }

  /**
   The formatter binary to replace: `<home>/.cargo/bin/rustfmt`, with the
   executable's extension appended.  It lies under `home`, and what follows
   `home` is fixed up to the extension.
   */
  function DestPath(home: Path, extension: Option<string>): (d: Path)
    ensures |home| <= |d| && d[..|home|] == home
    ensures d[|home|..] == (if NeedsSeparator(home) then [Separator] else [])
                           + ".cargo" + [Separator] + "bin" + [Separator] + "rustfmt"
                           + ExtensionSuffix(extension)
  {
    var sep: string := if NeedsSeparator(home) then [Separator] else [];
    var ext := ExtensionSuffix(extension);
    JoinAppends(home, ".cargo");
    var cargo := Join(home, ".cargo");
    JoinAppends(cargo, "bin");
    var bin := Join(cargo, "bin");
    AppendAssoc(home, sep + ".cargo", [Separator] + "bin");
    assert bin == home + (sep + ".cargo" + [Separator] + "bin");
    JoinAppends(bin, "rustfmt");
    var rustfmt := Join(bin, "rustfmt");
    AppendAssoc(home, sep + ".cargo" + [Separator] + "bin", [Separator] + "rustfmt");
    assert rustfmt == home + (sep + ".cargo" + [Separator] + "bin" + [Separator] + "rustfmt");
    var d := rustfmt + ext;
    AppendAssoc(home, sep + ".cargo" + [Separator] + "bin" + [Separator] + "rustfmt", ext);
    d
  }

  /** Where the original formatter is kept: the destination with `.bk` appended. */
  function BackupPath(dest: Path): (b: Path)
    ensures b != dest && |b| == |dest| + |BackupSuffix| && b[..|dest|] == dest && b[|dest|..] == BackupSuffix
  {
    dest + BackupSuffix
  }

  /** `fs::copy`: the target gets the source's bytes; it fails when the source does not exist. */
  function Copy(fs: FileSystem, from: Path, to: Path): Option<FileSystem> {
    if from in fs then Some(fs[to := fs[from]]) else None
  }

  /** The backup step succeeds, but the executable to copy over the destination is missing. */
  predicate CopyFails(fs: FileSystem, dest: Path, exe: Path) {
    var backup := BackupPath(dest);
    (backup in fs || dest in fs) && exe !in fs && exe != backup
  }

  /**
   `install`: resolve the paths, back up the destination unless a backup
   already exists, then overwrite the destination with the executable.
   */
  function Install(home: Option<Path>, exe: Option<Exe>, fs: FileSystem): (r: Result<FileSystem, InstallError>)
    ensures home.None? ==> r == Failure(NoHomeDir)
    ensures home.Some? && exe.None? ==> r == Failure(NoCurrentExe)
    ensures home.Some? && exe.Some? ==>
              var dest := DestPath(home.value, exe.value.extension);
              var backup := BackupPath(dest);
              && (r.Failure? ==> r.error == BackupFailed || r.error == CopyFailed)
              && (r == Failure(BackupFailed) <==> backup !in fs && dest !in fs)
              && (CopyFails(fs, dest, exe.value.path) ==> r == Failure(CopyFailed))
              && ((exe.value.path in fs || exe.value.path == backup) && (backup in fs || dest in fs) ==> r.Success?)
              && (r.Success? ==>
                    && r.value.Keys == fs.Keys + {dest, backup}
                    && (backup in fs || dest in fs)
                    && r.value[backup] == (if backup in fs then fs[backup] else fs[dest])
                    && (exe.value.path != backup ==> exe.value.path in fs && r.value[dest] == fs[exe.value.path])
                    && (exe.value.path == backup ==> r.value[dest] == r.value[backup])
                    && forall p :: p in fs && p != dest && p != backup ==> r.value[p] == fs[p])
  {
    match (home, exe)
    case (None, _) => Failure(NoHomeDir)
    case (Some(_), None) => Failure(NoCurrentExe)
    case (Some(h), Some(e)) =>
      var dest := DestPath(h, e.extension);
      var backup := BackupPath(dest);
      var backedUp := if backup in fs then Some(fs) else Copy(fs, dest, backup);
      match backedUp
      case None => Failure(BackupFailed)
      case Some(fs1) =>
        match Copy(fs1, e.path, dest)
        case None => Failure(CopyFailed)
        case Some(fs2) => Success(fs2)
  }

  /**
   Installing a second time keeps the backup made by the first, so the
   original formatter is never lost; when the executable is neither the
   destination nor the backup, the second run changes nothing at all.
   */
  lemma InstallTwiceKeepsFirstBackup(home: Path, exe: Exe, fs: FileSystem)
    requires Install(Some(home), Some(exe), fs).Success?
    ensures var once := Install(Some(home), Some(exe), fs).value;
            var twice := Install(Some(home), Some(exe), once);
            var backup := BackupPath(DestPath(home, exe.extension));
            && twice.Success?
            && twice.value[backup] == once[backup]
            && (exe.path != DestPath(home, exe.extension) && exe.path != backup ==> twice.value == once)
  {
  }
}
