/**
 The startup decision of filesurf's `main`: which checks on the command-line
 flags and the filesystem end the process, and otherwise whether it serves
 plain HTTP or HTTPS, with which certificate and key files, and whether it
 first generates a fresh self-signed certificate and key.

 `os.Stat` is modelled by a map from path to entry kind: Stat succeeds on a
 path exactly when the path is in the map.
 */
module Startup {

  /** Where the self-generated certificate and key are written and looked
      for. */
  const DefaultCertName: string := "filesurf.pem"
  const DefaultKeyName: string := "filesurf.key"

  /** The values of -p, -d, -s, -cert and -key after flag parsing. */
  datatype Flags = Flags(
    port: string,
    baseDir: string,
    secure: bool,
    certFile: string,
    keyFile: string)

  /** The flags' default values. */
  const DefaultFlags: Flags := Flags("8090", ".", false, "", "")

  datatype EntryKind = RegularFile | Directory

  type FileSystem = map<string, EntryKind>

  /** Why the process exits before serving; each exits with status 1. */
  datatype Failure =
    | PortMissing
    | BaseDirUnreadable
    | BaseDirNotDirectory
    | TlsPairIncomplete

  datatype Outcome =
    | Exit(failure: Failure)
    | ServeHttp(address: string, root: string)
    | ServeHttps(address: string, root: string, certFile: string, keyFile: string, generateCert: bool)
  {
    predicate Serves() {
      ServeHttp? || ServeHttps?
    }
  }

  /** The checks that end the process in every mode. */
  predicate BaseChecksPass(flags: Flags, fs: FileSystem) {
    && flags.port != ""
    && flags.baseDir in fs
    && fs[flags.baseDir] == Directory
  }

  /** The HTTPS paths are either both given or both left empty. */
  predicate TlsPairConsistent(flags: Flags) {
    (flags.certFile == "") == (flags.keyFile == "")
  }

  /** What `main` does with its flags before and instead of serving. */
  function Decide(flags: Flags, fs: FileSystem): (o: Outcome)
    ensures o.Exit? <==> !BaseChecksPass(flags, fs) || (flags.secure && !TlsPairConsistent(flags))
    ensures o.Serves() ==> o.address == ":" + flags.port && o.root == flags.baseDir
    ensures o.ServeHttp? <==> BaseChecksPass(flags, fs) && !flags.secure
    ensures o.ServeHttps? ==> o.certFile != "" && o.keyFile != ""
  {
    if flags.port == "" then Exit(PortMissing)
    else if flags.baseDir !in fs then Exit(BaseDirUnreadable)
    else if fs[flags.baseDir] != Directory then Exit(BaseDirNotDirectory)
    else if !flags.secure then ServeHttp(":" + flags.port, flags.baseDir)
    else if flags.certFile == "" && flags.keyFile == "" then
      var missing := DefaultCertName !in fs || DefaultKeyName !in fs;
      ServeHttps(":" + flags.port, flags.baseDir, DefaultCertName, DefaultKeyName, missing)
    else if flags.certFile == "" || flags.keyFile == "" then Exit(TlsPairIncomplete)
    else ServeHttps(":" + flags.port, flags.baseDir, flags.certFile, flags.keyFile, false)
  }

  /** The checks run in order: the first one that fails names the exit. */
  lemma ExitReasons(flags: Flags, fs: FileSystem)
    ensures flags.port == "" ==> Decide(flags, fs) == Exit(PortMissing)
    ensures flags.port != "" && flags.baseDir !in fs ==> Decide(flags, fs) == Exit(BaseDirUnreadable)
    ensures flags.port != "" && flags.baseDir in fs && fs[flags.baseDir] == RegularFile ==>
      Decide(flags, fs) == Exit(BaseDirNotDirectory)
    ensures BaseChecksPass(flags, fs) && flags.secure && !TlsPairConsistent(flags) ==>
      Decide(flags, fs) == Exit(TlsPairIncomplete)
  {
  }

  /** Without -s the -cert and -key flags are ignored, and so is every path
      but the base directory. */
  lemma PlainIgnoresTlsFlags(flags: Flags, fs: FileSystem, cert: string, key: string, fs': FileSystem)
    requires !flags.secure
    requires flags.baseDir in fs <==> flags.baseDir in fs'
    requires flags.baseDir in fs ==> fs[flags.baseDir] == fs'[flags.baseDir]
    ensures Decide(flags, fs) == Decide(flags.(certFile := cert, keyFile := key), fs')
  {
  }

  /** With -s and neither path given, the defaults are used, and a fresh
      certificate is generated exactly when one of them is missing. */
  lemma DefaultsGeneratedIffMissing(flags: Flags, fs: FileSystem)
    requires BaseChecksPass(flags, fs) && flags.secure
    requires flags.certFile == "" && flags.keyFile == ""
    ensures var o := Decide(flags, fs);
      && o.ServeHttps?
      && o.certFile == DefaultCertName && o.keyFile == DefaultKeyName
      && (o.generateCert <==> DefaultCertName !in fs || DefaultKeyName !in fs)
  {
  }

  /** With -s and both paths given, they are used as given, whatever the
      filesystem holds, and nothing is generated. */
  lemma GivenPathsUsedUnchanged(flags: Flags, fs: FileSystem)
    requires BaseChecksPass(flags, fs) && flags.secure
    requires flags.certFile != "" && flags.keyFile != ""
    ensures Decide(flags, fs) == ServeHttps(":" + flags.port, flags.baseDir, flags.certFile, flags.keyFile, false)
  {
  }

  /** The default flags serve the working directory over HTTP on port
      8090. */
  lemma DefaultFlagsServeHttp(fs: FileSystem)
    requires "." in fs && fs["."] == Directory
    ensures Decide(DefaultFlags, fs) == ServeHttp(":8090", ".")
  {
  }

  // ---------------------------------------------------------------------
  // The filesystem effect of generateKeyAndCert
  // ---------------------------------------------------------------------

  datatype Provisioning =
    | Written(fs: FileSystem)
    | CreateFailed(path: string, fs: FileSystem)

  /** fs' agrees with fs on every path other than a and b. */
  predicate UnchangedExcept(fs: FileSystem, fs': FileSystem, a: string, b: string) {
    && (forall path :: path in fs' && path != a && path != b ==> path in fs)
    && (forall path :: path in fs && path != a && path != b ==> path in fs' && fs'[path] == fs[path])
  }

  /** generateKeyAndCert creates the certificate file, then the key file,
      and panics when either cannot be created; a certificate written before
      the key fails stays on disk. The key material itself is not modelled;
      creating a file fails here when its path is a directory. */
  function ProvisionDefaults(fs: FileSystem): (p: Provisioning)
    ensures p.Written? <==>
      (DefaultCertName !in fs || fs[DefaultCertName] != Directory) &&
      (DefaultKeyName !in fs || fs[DefaultKeyName] != Directory)
    ensures p.Written? ==>
      && DefaultCertName in p.fs && p.fs[DefaultCertName] == RegularFile
      && DefaultKeyName in p.fs && p.fs[DefaultKeyName] == RegularFile
      && UnchangedExcept(fs, p.fs, DefaultCertName, DefaultKeyName)
    ensures p.CreateFailed? && p.path == DefaultCertName <==>
      DefaultCertName in fs && fs[DefaultCertName] == Directory
    ensures p.CreateFailed? && p.path == DefaultCertName ==> p.fs == fs
    ensures p.CreateFailed? && p.path != DefaultCertName ==>
      && p.path == DefaultKeyName && DefaultKeyName in p.fs && p.fs[DefaultKeyName] == Directory
      && DefaultCertName in p.fs && p.fs[DefaultCertName] == RegularFile
      && UnchangedExcept(fs, p.fs, DefaultCertName, DefaultCertName)
  {
    if DefaultCertName in fs && fs[DefaultCertName] == Directory then CreateFailed(DefaultCertName, fs)
    else
      var withCert := fs[DefaultCertName := RegularFile];
      if DefaultKeyName in fs && fs[DefaultKeyName] == Directory then CreateFailed(DefaultKeyName, withCert)
      else Written(withCert[DefaultKeyName := RegularFile])
  }

  /** Generation happens only when the defaults are absent, and once it has
      written them a second start with the same flags finds them and serves
      the same way without generating again. */
  lemma RestartReusesDefaults(flags: Flags, fs: FileSystem)
    requires Decide(flags, fs).ServeHttps? && Decide(flags, fs).generateCert
    requires ProvisionDefaults(fs).Written?
    ensures Decide(flags, ProvisionDefaults(fs).fs) == Decide(flags, fs).(generateCert := false)
  {
  }

  /** When only the key file could not be created, the certificate written
      before the panic stays, so a second start finds both defaults and does
      not regenerate. It chooses the HTTPS listener with filesurf.key still a
      directory, so loading the key fails there, and every later start fails
      the same way. */
  lemma RestartAfterKeyFailure(flags: Flags, fs: FileSystem)
    requires Decide(flags, fs).ServeHttps? && Decide(flags, fs).generateCert
    requires ProvisionDefaults(fs).CreateFailed? && ProvisionDefaults(fs).path == DefaultKeyName
    ensures Decide(flags, ProvisionDefaults(fs).fs) == Decide(flags, fs).(generateCert := false)
    ensures DefaultKeyName in ProvisionDefaults(fs).fs && ProvisionDefaults(fs).fs[DefaultKeyName] == Directory
  {
  }

  // ---------------------------------------------------------------------
  // The whole start: the decision, then any generation
  // ---------------------------------------------------------------------

  /** Why the process ends before listening. */
  datatype Halt =
    | Exited(failure: Failure)
    | GenerationPanicked(path: string)

  /** What a start leaves behind: either the process ended, or it reaches
      the listener of the outcome; either way, the filesystem afterwards. */
  datatype Run =
    | Halted(reason: Halt, fs: FileSystem)
    | Listening(outcome: Outcome, fs: FileSystem)

  /** `main` up to the listener: the flag checks, then generateKeyAndCert
      when the defaults are missing. */
  function Start(flags: Flags, fs: FileSystem): (r: Run)
    ensures r.Listening? <==>
      && BaseChecksPass(flags, fs)
      && (flags.secure ==> TlsPairConsistent(flags))
      && (flags.secure && flags.certFile == "" && (DefaultCertName !in fs || DefaultKeyName !in fs) ==>
            ProvisionDefaults(fs).Written?)
    ensures r.Listening? ==> r.outcome.Serves() && r.outcome == Decide(flags, fs)
    ensures r.Halted? && r.reason.Exited? ==> r.fs == fs && Decide(flags, fs) == Exit(r.reason.failure)
    ensures r.Halted? && r.reason.GenerationPanicked? ==>
      && r.reason.path in r.fs && r.fs[r.reason.path] == Directory
      && (r.reason.path == DefaultCertName || r.reason.path == DefaultKeyName)
    ensures r.Listening? && r.outcome.ServeHttps? && flags.certFile == "" ==>
      && DefaultCertName in r.fs && DefaultKeyName in r.fs
      && UnchangedExcept(fs, r.fs, DefaultCertName, DefaultKeyName)
    ensures r.Listening? && !(r.outcome.ServeHttps? && r.outcome.generateCert) ==> r.fs == fs
  {
    var o := Decide(flags, fs);
    if o.Exit? then Halted(Exited(o.failure), fs)
    else if o.ServeHttps? && o.generateCert then
      match ProvisionDefaults(fs)
      case Written(fs') => Listening(o, fs')
      case CreateFailed(path, fs') => Halted(GenerationPanicked(path), fs')
    else Listening(o, fs)
  }
}
