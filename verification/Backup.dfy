/** The encrypted backup: ciphertext first, the manifest last and in one move, so that a
    directory either holds a whole backup or refuses to be one. */
module Backup {
  import opened Wrappers

  type Bytes = seq<bv8>

  const DUMP := "db/tamforge.dump"
  const INVENTORY := "config/inventory.json"

  datatype Record = Record(
    name: string, plaintextBytes: nat, plaintextDigest: string,
    ciphertextBytes: nat, ciphertextDigest: string, nonce: Bytes)

  datatype Manifest = Manifest(
    capturedAt: string, cipher: string, toolVersions: map<string, string>, schemaHead: string,
    configKeys: seq<string>, payloads: seq<Record>)

  /** What the backup is given and does not look into: the cipher, the digest, the two texts
      it writes, and the scan for credentials. */
  datatype Tools = Tools(
    encrypt: (Bytes, string, Bytes, Bytes) -> Bytes,
    decrypt: (Bytes, string, Bytes, Bytes) -> Option<Bytes>,
    digest: Bytes -> string,
    inventory: seq<string> -> Bytes,
    render: Manifest -> Bytes,
    parse: Bytes -> Option<Manifest>,
    looksSecret: Bytes -> bool)
  {
    /** Decryption under the same key, name and nonce undoes encryption, and a manifest reads
        back as it was written. */
    ghost predicate Lawful() {
      && (forall key, name, nonce, plain ::
            decrypt(key, name, nonce, encrypt(key, name, nonce, plain)) == Some(plain))
      && (forall m :: parse(render(m)) == Some(m))
    }
  }

  datatype Path = Payload(name: string) | PayloadTmp(name: string) | ManifestFile | ManifestTmp

  type Files = map<Path, Bytes>

  datatype BackupError =
    | BadKey
    | NotEmpty
    | NaiveMoment
    | EmptyDump
    | LooksSecret
    | NoManifest
    | UnknownManifest
    | Missing(name: string)
    | CiphertextDiffers(name: string)
    | DecryptionFailed(name: string)
    | PlaintextDiffers(name: string)

  // ----- Verifying -----

  function RecordProblem(r: Record, files: Files, key: Option<Bytes>, tools: Tools): Option<BackupError> {
    if Payload(r.name) !in files then Some(Missing(r.name))
    else
      var ciphertext := files[Payload(r.name)];
      if tools.digest(ciphertext) != r.ciphertextDigest then Some(CiphertextDiffers(r.name))
      else if key.None? then None
      else
        match tools.decrypt(key.value, r.name, r.nonce, ciphertext)
        case None => Some(DecryptionFailed(r.name))
        case Some(plaintext) =>
          if tools.digest(plaintext) != r.plaintextDigest then Some(PlaintextDiffers(r.name)) else None
  }

  function FirstProblem(records: seq<Record>, files: Files, key: Option<Bytes>, tools: Tools): Option<BackupError> {
    if records == [] then None
    else
      match FirstProblem(records[..|records| - 1], files, key, tools)
      case Some(e) => Some(e)
      case None => RecordProblem(records[|records| - 1], files, key, tools)
  }

  function Verified(files: Files, key: Option<Bytes>, tools: Tools): Result<Manifest, BackupError> {
    if ManifestFile !in files then Failure(NoManifest)
    else
      match tools.parse(files[ManifestFile])
      case None => Failure(UnknownManifest)
      case Some(m) =>
        match FirstProblem(m.payloads, files, key, tools)
        case Some(e) => Failure(e)
        case None => Success(m)
  }

  /** `verify` */
  method Verify(files: Files, key: Option<Bytes>, tools: Tools) returns (r: Result<Manifest, BackupError>)
    ensures r == Verified(files, key, tools)
  {
    if ManifestFile !in files {
      return Failure(NoManifest);
    }
    var parsed := tools.parse(files[ManifestFile]);
    if parsed.None? {
      return Failure(UnknownManifest);
    }
    var records := parsed.value.payloads;
    for i := 0 to |records|
      invariant FirstProblem(records[..i], files, key, tools).None?
    {
      assert records[..i + 1][..i] == records[..i];
      var problem := RecordProblem(records[i], files, key, tools);
      if problem.Some? {
        FirstProblemStays(records, i + 1, files, key, tools);
        return Failure(problem.value);
      }
    }
    assert records[..|records|] == records;
    r := Success(parsed.value);
  }

  lemma {:induction false} FirstProblemStays(
    records: seq<Record>, i: nat, files: Files, key: Option<Bytes>, tools: Tools)
    requires i <= |records| && FirstProblem(records[..i], files, key, tools).Some?
    ensures FirstProblem(records, files, key, tools) == FirstProblem(records[..i], files, key, tools)
    decreases |records|
  {
    if i < |records| {
      var front := records[..|records| - 1];
      assert front[..i] == records[..i];
      FirstProblemStays(front, i, files, key, tools);
    } else {
      assert records[..i] == records;
    }
  }

  /** A record is in order: its ciphertext is there and matches, and with the key so does its
      plaintext. */
  predicate InOrder(r: Record, files: Files, key: Option<Bytes>, tools: Tools) {
    && Payload(r.name) in files
    && tools.digest(files[Payload(r.name)]) == r.ciphertextDigest
    && (key.Some? ==>
          var plain := tools.decrypt(key.value, r.name, r.nonce, files[Payload(r.name)]);
          plain.Some? && tools.digest(plain.value) == r.plaintextDigest)
  }

  /** Verification succeeds exactly when there is a manifest and every record is in order. */
  lemma VerifiedIsExact(files: Files, key: Option<Bytes>, tools: Tools)
    ensures Verified(files, key, tools).Success? <==>
      && ManifestFile in files
      && tools.parse(files[ManifestFile]).Some?
      && forall i | 0 <= i < |tools.parse(files[ManifestFile]).value.payloads| ::
           InOrder(tools.parse(files[ManifestFile]).value.payloads[i], files, key, tools)
  {
    if ManifestFile in files && tools.parse(files[ManifestFile]).Some? {
      NoProblemMeansOrder(tools.parse(files[ManifestFile]).value.payloads, files, key, tools);
    }
  }

  lemma {:induction false} NoProblemMeansOrder(records: seq<Record>, files: Files, key: Option<Bytes>, tools: Tools)
    ensures FirstProblem(records, files, key, tools).None? <==>
      forall i | 0 <= i < |records| :: InOrder(records[i], files, key, tools)
  {
    hide InOrder;
    if records != [] {
      var n := |records| - 1;
      NoProblemMeansOrder(records[..n], files, key, tools);
      OneRecord(records[n], files, key, tools);
      assert forall i | 0 <= i < n :: records[..n][i] == records[i];
    }
  }

  lemma OneRecord(r: Record, files: Files, key: Option<Bytes>, tools: Tools)
    ensures RecordProblem(r, files, key, tools).None? <==> InOrder(r, files, key, tools)
  {
  }

  /** `decrypt_dump`: verify, then decrypt the first record with the dump's name. */
  function DecryptedDump(files: Files, key: Bytes, tools: Tools): Result<Bytes, BackupError> {
    var m :- Verified(files, Some(key), tools);
    match FindRecord(m.payloads, DUMP)
    case None => Failure(Missing(DUMP))
    case Some(r) =>
      if Payload(r.name) !in files then Failure(Missing(r.name))
      else
        match tools.decrypt(key, r.name, r.nonce, files[Payload(r.name)])
        case None => Failure(DecryptionFailed(r.name))
        case Some(plain) => Success(plain)
  }

  function FindRecord(records: seq<Record>, name: string): Option<Record> {
    if records == [] then None
    else if records[0].name == name then Some(records[0])
    else FindRecord(records[1..], name)
  }

  // ----- A directory that can be cut off at any moment -----

  class Directory {
    var files: Files
    var hasPayloads: bool  // the payload directories exist, with or without files

    constructor ()
      ensures files == map[] && !hasPayloads
    {
      files, hasPayloads := map[], false;
    }

    predicate IsEmpty()
      reads this
    {
      files == map[] && !hasPayloads
    }

    method MakePayloads()
      modifies this`hasPayloads
      ensures hasPayloads
    {
      hasPayloads := true;
    }

    /** A plain write; one that is cut off leaves the file as it was or any first part of the
        content. */
    method Write(path: Path, content: Bytes, cutOff: bool)
      modifies this`files
      ensures !cutOff ==> files == old(files)[path := content]
      ensures cutOff ==>
        (files == old(files) || exists n :: 0 <= n <= |content| && files == old(files)[path := content[..n]])
    {
      if !cutOff {
        files := files[path := content];
      } else {
        var n: int := *;
        if 0 <= n <= |content| {
          files := files[path := content[..n]];
        }
      }
    }

    /** `os.replace`: one move. */
    method Replace(source: Path, target: Path)
      requires source in files && source != target
      modifies this`files
      ensures files == (old(files) - {source})[target := old(files)[source]]
    {
      files := (files - {source})[target := files[source]];
    }
  }

  // ----- Backing up -----

  datatype Outcome = Refused(error: BackupError) | Stopped | Published(manifest: Manifest)

  datatype Moment = Moment(text: string, isAware: bool)

  function RecordOf(name: string, plain: Bytes, nonce: Bytes, key: Bytes, tools: Tools): Record {
    var ciphertext := tools.encrypt(key, name, nonce, plain);
    Record(name, |plain|, tools.digest(plain), |ciphertext|, tools.digest(ciphertext), nonce)
  }

  /** This payload is on disk under its name, as its record says. */
  predicate IsStored(name: string, plain: Bytes, nonce: Bytes, key: Bytes, files: Files, tools: Tools) {
    Payload(name) in files && files[Payload(name)] == tools.encrypt(key, name, nonce, plain)
  }

  /** What a record says of its file and of what was encrypted in it is so. */
  predicate Describes(r: Record, plain: Bytes, key: Bytes, files: Files, tools: Tools) {
    && Payload(r.name) in files
    && r.ciphertextBytes == |files[Payload(r.name)]|
    && r.ciphertextDigest == tools.digest(files[Payload(r.name)])
    && tools.decrypt(key, r.name, r.nonce, files[Payload(r.name)]) == Some(plain)
    && r.plaintextBytes == |plain| && r.plaintextDigest == tools.digest(plain)
  }

  /** The manifest names the dump and the inventory, in this order, each read back from its own
      file under its own nonce. */
  predicate Accounts(m: Manifest, dump: Bytes, inventory: Bytes, nonces: seq<Bytes>, key: Bytes, files: Files,
                     tools: Tools)
    requires |nonces| == 2
  {
    && m.cipher == "AES-256-GCM"
    && |m.payloads| == 2
    && m.payloads[0].name == "db/tamforge.dump" && m.payloads[1].name == "config/inventory.json"
    && m.payloads[0].nonce == nonces[0] && m.payloads[1].nonce == nonces[1]
    && Describes(m.payloads[0], dump, key, files, tools)
    && Describes(m.payloads[1], inventory, key, files, tools)
  }

  /** The record made for a payload describes the file it is stored in. */
  lemma StoredIsDescribed(name: string, plain: Bytes, nonce: Bytes, key: Bytes, files: Files, tools: Tools)
    requires tools.Lawful() && IsStored(name, plain, nonce, key, files, tools)
    ensures var r := RecordOf(name, plain, nonce, key, tools);
      r.name == name && r.nonce == nonce && Describes(r, plain, key, files, tools)
  {
  }

  lemma StoredIsAccounted(m: Manifest, dump: Bytes, inventory: Bytes, nonces: seq<Bytes>, key: Bytes, files: Files,
                          tools: Tools)
    requires tools.Lawful() && |nonces| == 2 && m.cipher == "AES-256-GCM"
    requires m.payloads == [RecordOf(DUMP, dump, nonces[0], key, tools),
                            RecordOf(INVENTORY, inventory, nonces[1], key, tools)]
    requires IsStored(DUMP, dump, nonces[0], key, files, tools)
    requires IsStored(INVENTORY, inventory, nonces[1], key, files, tools)
    ensures Accounts(m, dump, inventory, nonces, key, files, tools)
  {
    hide RecordOf, IsStored, Describes;
    StoredIsDescribed(DUMP, dump, nonces[0], key, files, tools);
    StoredIsDescribed(INVENTORY, inventory, nonces[1], key, files, tools);
  }

  /** A backup that starts has a key of 32 bytes, an empty directory, a moment with its time
      zone and a dump that is not empty. */
  predicate MayStart(key: Bytes, isEmpty: bool, now: Moment, dump: Bytes) {
    |key| == 32 && isEmpty && now.isAware && dump != []
  }

  /** Each refusal is for what it names, with nothing wrong that is looked at earlier. */
  predicate IsObjection(e: BackupError, key: Bytes, isEmpty: bool, now: Moment, dump: Bytes) {
    match e
    case BadKey => |key| != 32
    case NotEmpty => |key| == 32 && !isEmpty
    case NaiveMoment => |key| == 32 && isEmpty && !now.isAware
    case EmptyDump => |key| == 32 && isEmpty && now.isAware && dump == []
    case _ => false
  }

  /** The whole promise: no manifest, or this manifest, which verifies with the key and
      without it, and the very dump back. */
  ghost predicate IsSound(files: Files, key: Bytes, m: Manifest, dump: Bytes, tools: Tools) {
    ManifestFile in files ==>
      && Verified(files, Some(key), tools) == Success(m)
      && Verified(files, None, tools) == Success(m)
      && DecryptedDump(files, key, tools) == Success(dump)
  }

  /** One turn of the payload loop: the directory, the ciphertext under a temporary name, the
      move. The machine stops at the effect after the first `cut`. */
  method StorePayload(directory: Directory, tools: Tools, key: Bytes, name: string, plain: Bytes, nonce: Bytes,
                      cut: nat)
    returns (record: Option<Record>)
    modifies directory
    ensures forall p | p != Payload(name) && p != PayloadTmp(name) ::
      && (p in directory.files <==> p in old(directory.files))
      && (p in directory.files ==> directory.files[p] == old(directory.files)[p])
    ensures record.Some? <==> cut >= 3
    ensures cut < 3 ==> Payload(name) in directory.files ==> Payload(name) in old(directory.files)
    ensures record.Some? ==>
      && record.value == RecordOf(name, plain, nonce, key, tools)
      && IsStored(name, plain, nonce, key, directory.files, tools)
  {
    var ciphertext := tools.encrypt(key, name, nonce, plain);
    if cut == 0 {
      return None;
    }
    directory.MakePayloads();
    directory.Write(PayloadTmp(name), ciphertext, cut == 1);
    if cut <= 2 {
      return None;
    }
    directory.Replace(PayloadTmp(name), Payload(name));
    return Some(RecordOf(name, plain, nonce, key, tools));
  }

  /** The manifest a backup publishes. */
  function ManifestOf(now: Moment, configKeys: seq<string>, toolVersions: map<string, string>, schemaHead: string,
                      dump: Bytes, nonces: seq<Bytes>, key: Bytes, tools: Tools): Manifest
    requires |nonces| == 2
  {
    Manifest(now.text, "AES-256-GCM", toolVersions, schemaHead, configKeys,
             [RecordOf(DUMP, dump, nonces[0], key, tools),
              RecordOf(INVENTORY, tools.inventory(configKeys), nonces[1], key, tools)])
  }

  /** `backup`. The nonces are the two the operating system hands out; the configuration
      keys come sorted. The machine stops at the effect after the first `cut`: there are three
      for each payload and two for the manifest. */
  method MakeBackup(directory: Directory, tools: Tools, key: Bytes, dump: Bytes, now: Moment,
                    configKeys: seq<string>, toolVersions: map<string, string>, schemaHead: string,
                    nonces: seq<Bytes>, cut: nat)
    returns (outcome: Outcome)
    requires tools.Lawful() && |nonces| == 2
    modifies directory
    ensures var m := ManifestOf(now, configKeys, toolVersions, schemaHead, dump, nonces, key, tools);
      if !MayStart(key, old(directory.IsEmpty()), now, dump) then
        && outcome.Refused? && IsObjection(outcome.error, key, old(directory.IsEmpty()), now, dump)
        && directory.files == old(directory.files) && directory.hasPayloads == old(directory.hasPayloads)
      else
        && outcome == (if cut < 6 then Stopped
                       else if tools.looksSecret(tools.render(m)) then Refused(LooksSecret)
                       else if cut < 8 then Stopped
                       else Published(m))
        && (ManifestFile in directory.files <==> outcome.Published?)
        && IsSound(directory.files, key, m, dump, tools)
        && (outcome.Published? ==>
              Accounts(m, dump, tools.inventory(configKeys), nonces, key, directory.files, tools))
  {
    hide Verified, DecryptedDump, RecordOf, Accounts;
    if |key| != 32 {
      return Refused(BadKey);
    }
    if !directory.IsEmpty() {
      return Refused(NotEmpty);
    }
    if !now.isAware {
      return Refused(NaiveMoment);
    }
    if dump == [] {
      return Refused(EmptyDump);
    }
    var payloads := [(DUMP, dump), (INVENTORY, tools.inventory(configKeys))];
    var records: seq<Record> := [];
    for i := 0 to 2
      invariant ManifestFile !in directory.files
      invariant |records| == i && cut >= 3 * i
      invariant forall j | 0 <= j < i ::
        && records[j] == RecordOf(payloads[j].0, payloads[j].1, nonces[j], key, tools)
        && IsStored(payloads[j].0, payloads[j].1, nonces[j], key, directory.files, tools)
    {
      var record := StorePayload(directory, tools, key, payloads[i].0, payloads[i].1, nonces[i], cut - 3 * i);
      if record.None? {
        return Stopped;
      }
      records := records + [record.value];
    }
    assert records == [RecordOf(DUMP, dump, nonces[0], key, tools),
                       RecordOf(INVENTORY, tools.inventory(configKeys), nonces[1], key, tools)];
    var manifest := Manifest(now.text, "AES-256-GCM", toolVersions, schemaHead, configKeys, records);
    var text := tools.render(manifest);
    if tools.looksSecret(text) {
      return Refused(LooksSecret);
    }
    directory.Write(ManifestTmp, text, cut == 6);
    if cut <= 7 {
      return Stopped;
    }
    directory.Replace(ManifestTmp, ManifestFile);
    PublishedIsSound(directory.files, key, manifest, payloads, nonces, tools);
    StoredIsAccounted(manifest, dump, tools.inventory(configKeys), nonces, key, directory.files, tools);
    outcome := Published(manifest);
  }

  /** With both payloads stored, putting the manifest in place gives a whole backup. */
  lemma PublishedIsSound(files: Files, key: Bytes, m: Manifest, payloads: seq<(string, Bytes)>,
                         nonces: seq<Bytes>, tools: Tools)
    requires tools.Lawful() && |payloads| == |nonces| == |m.payloads| && |payloads| > 0
    requires payloads[0].0 == DUMP
    requires ManifestFile in files && files[ManifestFile] == tools.render(m)
    requires forall i | 0 <= i < |payloads| ::
      && m.payloads[i] == RecordOf(payloads[i].0, payloads[i].1, nonces[i], key, tools)
      && IsStored(payloads[i].0, payloads[i].1, nonces[i], key, files, tools)
    ensures Verified(files, Some(key), tools) == Success(m)
    ensures Verified(files, None, tools) == Success(m)
    ensures DecryptedDump(files, key, tools) == Success(payloads[0].1)
  {
    forall i, k: Option<Bytes> | 0 <= i < |payloads| && (k.Some? ==> k.value == key)
      ensures InOrder(m.payloads[i], files, k, tools)
    {
      StoredIsInOrder(payloads[i].0, payloads[i].1, nonces[i], key, k, files, tools);
    }
    NoProblemMeansOrder(m.payloads, files, Some(key), tools);
    NoProblemMeansOrder(m.payloads, files, None, tools);
    assert m.payloads[0].name == DUMP;
  }

  lemma StoredIsInOrder(name: string, plain: Bytes, nonce: Bytes, key: Bytes, k: Option<Bytes>,
                        files: Files, tools: Tools)
    requires tools.Lawful() && IsStored(name, plain, nonce, key, files, tools)
    requires k.Some? ==> k.value == key
    ensures InOrder(RecordOf(name, plain, nonce, key, tools), files, k, tools)
  {
  }

  // ----- What a verified backup is worth -----

  /** A refusal to verify names what is wrong: the first record out of order in the one way, with
      all before it in order. */
  lemma ProblemIsReal(files: Files, key: Option<Bytes>, tools: Tools, e: BackupError) returns (i: nat)
    requires Verified(files, key, tools) == Failure(e) && e != NoManifest && e != UnknownManifest
    ensures ManifestFile in files && tools.parse(files[ManifestFile]).Some?
    ensures var records := tools.parse(files[ManifestFile]).value.payloads;
      && i < |records|
      && (forall j | 0 <= j < i :: InOrder(records[j], files, key, tools))
      && IsProblem(e, records[i], files, key, tools)
  {
    i := FirstOutOfOrder(tools.parse(files[ManifestFile]).value.payloads, files, key, tools);
  }

  predicate IsProblem(e: BackupError, r: Record, files: Files, key: Option<Bytes>, tools: Tools) {
    match e
    case Missing(name) => name == r.name && Payload(name) !in files
    case CiphertextDiffers(name) =>
      name == r.name && Payload(name) in files && tools.digest(files[Payload(name)]) != r.ciphertextDigest
    case DecryptionFailed(name) =>
      && name == r.name && Payload(name) in files && tools.digest(files[Payload(name)]) == r.ciphertextDigest
      && key.Some? && tools.decrypt(key.value, name, r.nonce, files[Payload(name)]).None?
    case PlaintextDiffers(name) =>
      && name == r.name && Payload(name) in files && tools.digest(files[Payload(name)]) == r.ciphertextDigest
      && key.Some?
      && var plain := tools.decrypt(key.value, name, r.nonce, files[Payload(name)]);
         plain.Some? && tools.digest(plain.value) != r.plaintextDigest
    case _ => false
  }

  lemma {:induction false} FirstOutOfOrder(records: seq<Record>, files: Files, key: Option<Bytes>, tools: Tools)
    returns (i: nat)
    requires FirstProblem(records, files, key, tools).Some?
    ensures i < |records| && IsProblem(FirstProblem(records, files, key, tools).value, records[i], files, key, tools)
    ensures forall j | 0 <= j < i :: InOrder(records[j], files, key, tools)
  {
    hide InOrder;
    i := |records| - 1;
    if FirstProblem(records[..i], files, key, tools).Some? {
      i := FirstOutOfOrder(records[..i], files, key, tools);
    } else {
      NoProblemMeansOrder(records[..i], files, key, tools);
      assert forall j | 0 <= j < i :: records[..i][j] == records[j];
    }
  }

  /** In place of what was written there is something else with the same digest. */
  predicate Collides(name: string, plain: Bytes, nonce: Bytes, key: Bytes, files: Files, tools: Tools) {
    && Payload(name) in files
    && files[Payload(name)] != tools.encrypt(key, name, nonce, plain)
    && tools.digest(files[Payload(name)]) == tools.digest(tools.encrypt(key, name, nonce, plain))
  }

  /** With the manifest as published, verifying without the key succeeds exactly when every
      ciphertext is the one that was written, or another one found to have its digest. Unless
      there is such a collision the dump comes back unharmed, whatever else happened to the
      directory. */
  lemma VerifiedIsUntouched(files: Files, key: Bytes, m: Manifest, payloads: seq<(string, Bytes)>,
                            nonces: seq<Bytes>, tools: Tools)
    requires tools.Lawful()
    requires |payloads| == |nonces| == |m.payloads| && |payloads| > 0 && payloads[0].0 == DUMP
    requires forall i | 0 <= i < |payloads| ::
      m.payloads[i] == RecordOf(payloads[i].0, payloads[i].1, nonces[i], key, tools)
    requires ManifestFile in files && files[ManifestFile] == tools.render(m)
    ensures Verified(files, None, tools).Success? <==>
      forall i | 0 <= i < |payloads| ::
        || IsStored(payloads[i].0, payloads[i].1, nonces[i], key, files, tools)
        || Collides(payloads[i].0, payloads[i].1, nonces[i], key, files, tools)
    ensures Verified(files, None, tools).Success? ==>
      || DecryptedDump(files, key, tools) == Success(payloads[0].1)
      || exists i | 0 <= i < |payloads| :: Collides(payloads[i].0, payloads[i].1, nonces[i], key, files, tools)
  {
    hide DecryptedDump, Verified;
    VerifiedIsExact(files, None, tools);
    forall i | 0 <= i < |payloads|
      ensures InOrder(m.payloads[i], files, None, tools) <==>
        (IsStored(payloads[i].0, payloads[i].1, nonces[i], key, files, tools)
         || Collides(payloads[i].0, payloads[i].1, nonces[i], key, files, tools))
    {
    }
    if forall i | 0 <= i < |payloads| :: IsStored(payloads[i].0, payloads[i].1, nonces[i], key, files, tools) {
      PublishedIsSound(files, key, m, payloads, nonces, tools);
    }
  }
}
