/** The messages of the protocol and their JSON form. */
module Protocol {
  import opened Text
  import opened Numerals
  import opened OrderedMap
  import opened Json
  import opened JsonPrinter

  datatype DeviceType = Desktop | Mobile | Web | Headless | Server

  datatype ProtocolType = Http | Https

  datatype Info = Info(alias: string, version: string, deviceModel: string, deviceType: DeviceType,
                       fingerprint: string, download: bool)

  datatype InfoRegister = InfoRegister(info: Info, port: int, protocol: ProtocolType)

  datatype Multicast = Multicast(register: InfoRegister, announce: bool)

  datatype FileDto = FileDto(id: string, fileName: string, size: nat, fileType: string, hash: string, preview: string)

  datatype PrepareRequest = PrepareRequest(info: InfoRegister, files: Entries<FileDto>)

  datatype PrepareResponse = PrepareResponse(sessionId: string, files: Entries<string>)

  /** What the model leaves open: the table of file types, and the integer a `double` that is not a
      small whole number is cast to. */
  datatype Open = Open(mime: string -> string, cast: string -> int)

  const PROTOCOL_VERSION := "2.1"
  const DEFAULT_PORT := 53317

  const ROUTE_PREPARE := "/api/localsend/v2/prepare-upload"
  const ROUTE_UPLOAD := "/api/localsend/v2/upload"
  const ROUTE_CANCEL := "/api/localsend/v2/cancel"
  const ROUTE_PREPARE_V1 := "/api/localsend/v1/send-request"
  const ROUTE_UPLOAD_V1 := "/api/localsend/v1/send"
  const ROUTE_CANCEL_V1 := "/api/localsend/v1/cancel"

  // ---------- JSON accessors; `None` stands for a thrown error ----------

  function AtKey(j: Json, key: string): Option<Json> {
    if j.Obj? then Lookup(j.members, key) else None
  }

  function AsString(j: Json): Option<string> {
    if j.Str? then Some(j.s) else None
  }

  function AsBool(j: Json): Option<bool> {
    if j.Bool? then Some(j.b) else None
  }

  function AsInt64(j: Json, open: Open): Option<int> {
    if !j.Num? then None
    else if j.num.Whole? then Some(j.num.n)
    else Some(open.cast(j.num.text))
  }

  function RequiredString(j: Json, key: string): Option<string> {
    var v :- AtKey(j, key);
    AsString(v)
  }

  /** A missing key, `null`, and a value that is no object all give the fallback. */
  function Present(j: Json, key: string): Option<Json> {
    var v :- AtKey(j, key);
    if v.Null? then None else Some(v)
  }

  function OptionalString(j: Json, key: string, fallback: string): Option<string> {
    var v := Present(j, key);
    if v.None? then Some(fallback) else AsString(v.value)
  }

  function OptionalBool(j: Json, key: string, fallback: bool): Option<bool> {
    var v := Present(j, key);
    if v.None? then Some(fallback) else AsBool(v.value)
  }

  function OptionalInt(j: Json, key: string, fallback: int, open: Open): Option<int> {
    var v := Present(j, key);
    if v.None? then Some(fallback) else
    var n :- AsInt64(v.value, open);
    Some(ToInt32(n))
  }

  /** `static_cast<int>` of a 64-bit integer. */
  function ToInt32(n: int): int {
    (n + 0x8000_0000) % 0x1_0000_0000 - 0x8000_0000
  }

  /** `Json(std::int64_t)`. */
  function IntJson(n: int): Json {
    Num(if -EXACT_LIMIT <= n <= EXACT_LIMIT then Whole(n) else Other(NumberLexeme(NumberOf(n))))
  }

  // ---------- Enumerations ----------

  function DeviceTypeText(d: DeviceType): string {
    match d
    case Desktop => "desktop"
    case Mobile => "mobile"
    case Web => "web"
    case Headless => "headless"
    case Server => "server"
  }

  function DeviceTypeFrom(s: string): DeviceType {
    if s == "mobile" then Mobile
    else if s == "web" then Web
    else if s == "headless" then Headless
    else if s == "server" then Server
    else Desktop
  }

  function ProtocolText(p: ProtocolType): string {
    if p.Https? then "https" else "http"
  }

  function ProtocolFrom(s: string): ProtocolType {
    if s == "https" then Https else Http
  }

  // ---------- To JSON ----------

  function InfoNames(d: Info): Entries<Json> {
    var m := Assign([], "alias", Str(d.alias));
    var m := Assign(m, "version", Str(d.version));
    Assign(m, "deviceModel", Str(d.deviceModel))
  }

  function InfoMembers(d: Info): Entries<Json> {
    var m := Assign(InfoNames(d), "deviceType", Str(DeviceTypeText(d.deviceType)));
    var m := Assign(m, "fingerprint", Str(d.fingerprint));
    Assign(m, "download", Bool(d.download))
  }

  function RegisterMembers(d: InfoRegister): Entries<Json> {
    var m := Assign(InfoMembers(d.info), "port", IntJson(d.port));
    Assign(m, "protocol", Str(ProtocolText(d.protocol)))
  }

  function MulticastMembers(d: Multicast): Entries<Json> {
    var m := Assign(RegisterMembers(d.register), "announce", Bool(d.announce));
    Assign(m, "announcement", Bool(d.announce))
  }

  function PutIfNotEmpty(m: Entries<Json>, key: string, value: string): Entries<Json> {
    if value == "" then m else Assign(m, key, Str(value))
  }

  function FileTypeOf(d: FileDto, open: Open): string {
    if d.fileType == "" then open.mime(d.fileName) else d.fileType
  }

  function FileNames(d: FileDto, open: Open): Entries<Json> {
    var m := Assign([], "id", Str(d.id));
    var m := Assign(m, "fileName", Str(d.fileName));
    var m := Assign(m, "size", IntJson(d.size));
    Assign(m, "fileType", Str(FileTypeOf(d, open)))
  }

  function FileMembers(d: FileDto, open: Open): Entries<Json> {
    PutIfNotEmpty(PutIfNotEmpty(FileNames(d, open), "hash", d.hash), "preview", d.preview)
  }

  function FilesMembers(files: Entries<FileDto>, open: Open): Entries<Json> {
    if files == [] then [] else
    var (front, last) := (files[..|files| - 1], files[|files| - 1]);
    Assign(FilesMembers(front, open), last.key, Obj(FileMembers(last.value, open)))
  }

  function TokensMembers(tokens: Entries<string>): Entries<Json> {
    if tokens == [] then [] else
    var (front, last) := (tokens[..|tokens| - 1], tokens[|tokens| - 1]);
    Assign(TokensMembers(front), last.key, Str(last.value))
  }

  function RequestJson(d: PrepareRequest, open: Open): Json {
    Obj(Assign(Assign([], "info", Obj(RegisterMembers(d.info))), "files", Obj(FilesMembers(d.files, open))))
  }

  function ResponseJson(d: PrepareResponse): Json {
    Obj(Assign(Assign([], "sessionId", Str(d.sessionId)), "files", Obj(TokensMembers(d.files))))
  }

  // ---------- From JSON ----------

  function InfoFrom(j: Json): Option<Info> {
    var alias :- RequiredString(j, "alias");
    var version :- OptionalString(j, "version", PROTOCOL_VERSION);
    var deviceModel :- OptionalString(j, "deviceModel", "Unknown");
    var deviceType :- OptionalString(j, "deviceType", "desktop");
    var fingerprint :- OptionalString(j, "fingerprint", "");
    var download :- OptionalBool(j, "download", false);
    Some(Info(alias, version, deviceModel, DeviceTypeFrom(deviceType), fingerprint, download))
  }

  function RegisterFrom(j: Json, open: Open): Option<InfoRegister> {
    var info :- InfoFrom(j);
    var port :- OptionalInt(j, "port", DEFAULT_PORT, open);
    var protocol :- OptionalString(j, "protocol", "http");
    Some(InfoRegister(info, port, ProtocolFrom(protocol)))
  }

  function MulticastFrom(j: Json, open: Open): Option<Multicast> {
    var register :- RegisterFrom(j, open);
    var announce :- OptionalBool(j, "announce", true);
    Some(Multicast(register, announce))
  }

  function FileFrom(j: Json, open: Open): Option<FileDto> {
    var id :- RequiredString(j, "id");
    var fileName :- RequiredString(j, "fileName");
    var sizeJson :- AtKey(j, "size");
    var size :- AsInt64(sizeJson, open);
    var fileType :- OptionalString(j, "fileType", open.mime(fileName));
    var hash :- OptionalString(j, "hash", "");
    var preview :- OptionalString(j, "preview", "");
    Some(FileDto(id, fileName, size % SIZE_LIMIT, fileType, hash, preview))
  }

  function FilesFrom(before: Entries<FileDto>, ms: Entries<Json>, open: Open): Option<Entries<FileDto>>
    decreases |ms|
  {
    if ms == [] then Some(before) else
    var f :- FileFrom(ms[0].value, open);
    FilesFrom(Emplace(before, ms[0].key, f), ms[1..], open)
  }

  function TokensFrom(before: Entries<string>, ms: Entries<Json>): Option<Entries<string>>
    decreases |ms|
  {
    if ms == [] then Some(before) else
    var t :- AsString(ms[0].value);
    TokensFrom(Emplace(before, ms[0].key, t), ms[1..])
  }

  function RequestFrom(j: Json, open: Open): Option<PrepareRequest> {
    var infoJson :- AtKey(j, "info");
    var info :- RegisterFrom(infoJson, open);
    var filesJson :- AtKey(j, "files");
    if !filesJson.Obj? then None else
    var files :- FilesFrom([], filesJson.members, open);
    Some(PrepareRequest(info, files))
  }

  function ResponseFrom(j: Json): Option<PrepareResponse> {
    var sessionId :- RequiredString(j, "sessionId");
    var filesJson :- AtKey(j, "files");
    if !filesJson.Obj? then None else
    var files :- TokensFrom([], filesJson.members);
    Some(PrepareResponse(sessionId, files))
  }

  // ---------- The loops over files ----------

  method FilesToJson(files: Entries<FileDto>, open: Open) returns (members: Entries<Json>)
    ensures members == FilesMembers(files, open)
  {
    hide Assign, FileMembers;
    members := [];
    for i := 0 to |files|
      invariant members == FilesMembers(files[..i], open)
    {
      assert files[..i + 1][..i] == files[..i];
      members := Assign(members, files[i].key, Obj(FileMembers(files[i].value, open)));
    }
    assert files[..|files|] == files;
  }

  method TokensToJson(tokens: Entries<string>) returns (members: Entries<Json>)
    ensures members == TokensMembers(tokens)
  {
    hide Assign;
    members := [];
    for i := 0 to |tokens|
      invariant members == TokensMembers(tokens[..i])
    {
      assert tokens[..i + 1][..i] == tokens[..i];
      members := Assign(members, tokens[i].key, Str(tokens[i].value));
    }
    assert tokens[..|tokens|] == tokens;
  }

  method FilesFromJson(members: Entries<Json>, open: Open) returns (files: Option<Entries<FileDto>>)
    ensures files == FilesFrom([], members, open)
  {
    hide Emplace, FileFrom;
    var out: Entries<FileDto> := [];
    for i := 0 to |members|
      invariant FilesFrom(out, members[i..], open) == FilesFrom([], members, open)
    {
      assert members[i..][1..] == members[i + 1..];
      var file := FileFrom(members[i].value, open);
      if file.None? { return None; }
      out := Emplace(out, members[i].key, file.value);
    }
    assert members[|members|..] == [];
    files := Some(out);
  }

  method TokensFromJson(members: Entries<Json>) returns (tokens: Option<Entries<string>>)
    ensures tokens == TokensFrom([], members)
  {
    hide Emplace;
    var out: Entries<string> := [];
    for i := 0 to |members|
      invariant TokensFrom(out, members[i..]) == TokensFrom([], members)
    {
      assert members[i..][1..] == members[i + 1..];
      var token := AsString(members[i].value);
      if token.None? { return None; }
      out := Emplace(out, members[i].key, token.value);
    }
    assert members[|members|..] == [];
    tokens := Some(out);
  }

  // ---------- Round trips ----------

  /** Sets a key of a printable object. */
  lemma Set(m: Entries<Json>, key: string, value: Json)
    requires Printable(Obj(m)) && Printable(value)
    ensures Printable(Obj(Assign(m, key, value)))
    ensures forall k :: Lookup(Assign(m, key, value), k) == if k == key then Some(value) else Lookup(m, k)
  {
    hide Assign, Lookup;
    AssignKeepsSorted(m, key, value);
  }

  /** The members `InfoFrom` looks at. */
  ghost predicate HoldsInfo(m: Entries<Json>, d: Info) {
    && Lookup(m, "alias") == Some(Str(d.alias))
    && Lookup(m, "version") == Some(Str(d.version))
    && Lookup(m, "deviceModel") == Some(Str(d.deviceModel))
    && Lookup(m, "deviceType") == Some(Str(DeviceTypeText(d.deviceType)))
    && Lookup(m, "fingerprint") == Some(Str(d.fingerprint))
    && Lookup(m, "download") == Some(Bool(d.download))
  }

  lemma NamesAreSet(d: Info)
    ensures var m := InfoNames(d);
            && Printable(Obj(m)) && Lookup(m, "alias") == Some(Str(d.alias))
            && Lookup(m, "version") == Some(Str(d.version)) && Lookup(m, "deviceModel") == Some(Str(d.deviceModel))
  {
    hide Assign, Lookup, Printable;
    EmptyIsPrintable();
    TextsArePrintable();
    var m := Assign([], "alias", Str(d.alias));
    Set([], "alias", Str(d.alias));
    Set(m, "version", Str(d.version));
    m := Assign(m, "version", Str(d.version));
    Set(m, "deviceModel", Str(d.deviceModel));
  }

  lemma InfoIsSet(d: Info)
    ensures Printable(Obj(InfoMembers(d))) && HoldsInfo(InfoMembers(d), d)
  {
    hide Assign, Lookup, Printable, DeviceTypeText, InfoNames;
    NamesAreSet(d);
    TextsArePrintable();
    var m := InfoNames(d);
    Set(m, "deviceType", Str(DeviceTypeText(d.deviceType)));
    m := Assign(m, "deviceType", Str(DeviceTypeText(d.deviceType)));
    Set(m, "fingerprint", Str(d.fingerprint));
    m := Assign(m, "fingerprint", Str(d.fingerprint));
    Set(m, "download", Bool(d.download));
  }

  lemma InfoIsRead(m: Entries<Json>, d: Info)
    requires HoldsInfo(m, d)
    ensures InfoFrom(Obj(m)) == Some(d)
  {
    hide Lookup;
  }

  ghost predicate HoldsRegister(m: Entries<Json>, d: InfoRegister) {
    && HoldsInfo(m, d.info)
    && Lookup(m, "port") == Some(Num(Whole(d.port)))
    && Lookup(m, "protocol") == Some(Str(ProtocolText(d.protocol)))
  }

  /** A port the program's `int` and its JSON numbers both hold. */
  predicate ValidPort(port: int) {
    -0x8000_0000 <= port < 0x8000_0000
  }

  lemma RegisterIsSet(d: InfoRegister)
    requires ValidPort(d.port)
    ensures Printable(Obj(RegisterMembers(d))) && HoldsRegister(RegisterMembers(d), d)
  {
    hide Assign, Lookup, Printable, InfoMembers, ProtocolText;
    InfoIsSet(d.info);
    TextsArePrintable();
    IntIsPrintable(d.port);
    Set(InfoMembers(d.info), "port", IntJson(d.port));
    Set(Assign(InfoMembers(d.info), "port", IntJson(d.port)), "protocol", Str(ProtocolText(d.protocol)));
  }

  lemma RegisterIsRead(m: Entries<Json>, d: InfoRegister, open: Open)
    requires ValidPort(d.port) && HoldsRegister(m, d)
    ensures RegisterFrom(Obj(m), open) == Some(d)
  {
    hide Lookup, HoldsInfo, InfoFrom;
    InfoIsRead(m, d.info);
    assert ToInt32(d.port) == d.port;
  }

  lemma MulticastRoundTrip(d: Multicast, open: Open)
    requires ValidPort(d.register.port)
    ensures var text := Dump(Obj(MulticastMembers(d)));
            ParseJson(text).Some? && MulticastFrom(ParseJson(text).value, open) == Some(d)
  {
    hide Assign, Lookup, Printable, RegisterMembers, RegisterFrom, Dump, ParseJson;
    RegisterIsSet(d.register);
    TextsArePrintable();
    var m := RegisterMembers(d.register);
    Set(m, "announce", Bool(d.announce));
    m := Assign(m, "announce", Bool(d.announce));
    Set(m, "announcement", Bool(d.announce));
    RegisterIsRead(MulticastMembers(d), d.register, open);
    ParseDump(Obj(MulticastMembers(d)));
  }

  ghost predicate HoldsFile(m: Entries<Json>, d: FileDto, open: Open) {
    && Lookup(m, "id") == Some(Str(d.id))
    && Lookup(m, "fileName") == Some(Str(d.fileName))
    && Lookup(m, "size") == Some(Num(Whole(d.size)))
    && Lookup(m, "fileType") == Some(Str(FileTypeOf(d, open)))
    && Lookup(m, "hash") == (if d.hash == "" then None else Some(Str(d.hash)))
    && Lookup(m, "preview") == (if d.preview == "" then None else Some(Str(d.preview)))
  }

  lemma FileNamesAreSet(d: FileDto, open: Open)
    requires d.size <= EXACT_LIMIT
    ensures var m := FileNames(d, open);
            && Printable(Obj(m)) && Lookup(m, "hash").None? && Lookup(m, "preview").None?
            && Lookup(m, "id") == Some(Str(d.id)) && Lookup(m, "fileName") == Some(Str(d.fileName))
            && Lookup(m, "size") == Some(Num(Whole(d.size))) && Lookup(m, "fileType") == Some(Str(FileTypeOf(d, open)))
  {
    hide Assign, Lookup, Printable, FileTypeOf;
    EmptyIsPrintable();
    TextsArePrintable();
    IntIsPrintable(d.size);
    var m := Assign([], "id", Str(d.id));
    Set([], "id", Str(d.id));
    Set(m, "fileName", Str(d.fileName));
    m := Assign(m, "fileName", Str(d.fileName));
    Set(m, "size", IntJson(d.size));
    m := Assign(m, "size", IntJson(d.size));
    Set(m, "fileType", Str(FileTypeOf(d, open)));
  }

  lemma FileIsSet(d: FileDto, open: Open)
    requires d.size <= EXACT_LIMIT
    ensures Printable(Obj(FileMembers(d, open))) && HoldsFile(FileMembers(d, open), d, open)
  {
    hide Assign, Lookup, Printable, FileTypeOf, FileNames;
    FileNamesAreSet(d, open);
    TextsArePrintable();
    Set(FileNames(d, open), "hash", Str(d.hash));
    Set(PutIfNotEmpty(FileNames(d, open), "hash", d.hash), "preview", Str(d.preview));
  }

  /** The file as the receiver sees it: an empty type is replaced by the one its name suggests. */
  function Received(d: FileDto, open: Open): FileDto {
    d.(fileType := FileTypeOf(d, open))
  }

  lemma FileIsRead(m: Entries<Json>, d: FileDto, open: Open)
    requires d.size <= EXACT_LIMIT && HoldsFile(m, d, open)
    ensures FileFrom(Obj(m), open) == Some(Received(d, open))
  {
    hide Lookup, FileTypeOf;
  }

  ghost predicate ValidFiles(files: Entries<FileDto>) {
    Sorted(files) && forall f <- files :: f.value.size <= EXACT_LIMIT
  }

  function FileEntries(files: Entries<FileDto>, open: Open): (ms: Entries<Json>)
    ensures |ms| == |files|
  {
    seq(|files|, i requires 0 <= i < |files| => Entry(files[i].key, Obj(FileMembers(files[i].value, open))))
  }

  lemma {:induction false} FilesAreSet(files: Entries<FileDto>, open: Open)
    requires ValidFiles(files)
    ensures FilesMembers(files, open) == FileEntries(files, open)
    ensures Printable(Obj(FileEntries(files, open)))
  {
    hide Assign, FileMembers, Less, HoldsFile;
    forall f <- files ensures Printable(Obj(FileMembers(f.value, open))) { FileIsSet(f.value, open); }
    assert Printable(Obj(FileEntries(files, open)));
    if files != [] {
      var (front, last) := (files[..|files| - 1], files[|files| - 1]);
      FilesAreSet(front, open);
      InsertAbove(FileEntries(front, open), last.key, Obj(FileMembers(last.value, open)));
    }
  }

  function AllReceived(files: Entries<FileDto>, open: Open): (r: Entries<FileDto>)
    ensures |r| == |files|
  {
    seq(|files|, i requires 0 <= i < |files| => Entry(files[i].key, Received(files[i].value, open)))
  }

  lemma {:induction false} FilesAreRead(before: Entries<FileDto>, files: Entries<FileDto>, open: Open)
    requires Sorted(before + files) && forall f <- files :: f.value.size <= EXACT_LIMIT
    ensures FilesFrom(before, FileEntries(files, open), open) == Some(before + AllReceived(files, open))
    decreases |files|
  {
    hide FilesFrom, Emplace, FileEntries, AllReceived, Received, Less, Sorted;
    if files != [] {
      var now := before + [Entry(files[0].key, Received(files[0].value, open))];
      KeysStaySorted(before, files, now);
      FirstFileIsRead(before, files, open);
      FirstFile(files, open);
      FilesAreRead(now, files[1..], open);
      assert now + AllReceived(files[1..], open) == before + AllReceived(files, open);
    } else {
      NoFiles(before, open);
    }
  }

  lemma NoFiles(before: Entries<FileDto>, open: Open)
    ensures FilesFrom(before, FileEntries([], open), open) == Some(before + AllReceived([], open))
  {
    assert before + AllReceived([], open) == before;
  }

  lemma FirstFileIsRead(before: Entries<FileDto>, files: Entries<FileDto>, open: Open)
    requires files != [] && files[0].value.size <= EXACT_LIMIT
    requires forall e <- before :: Less(e.key, files[0].key)
    ensures var now := before + [Entry(files[0].key, Received(files[0].value, open))];
            FilesFrom(before, FileEntries(files, open), open) == FilesFrom(now, FileEntries(files[1..], open), open)
  {
    hide Emplace, FileFrom, FileMembers, FileEntries, HoldsFile, Received, Less;
    var f := files[0];
    FileIsSet(f.value, open);
    FileIsRead(FileMembers(f.value, open), f.value, open);
    InsertAbove(before, f.key, Received(f.value, open));
    FirstFile(files, open);
  }

  lemma FirstFile(files: Entries<FileDto>, open: Open)
    requires files != []
    ensures FileEntries(files, open)[0] == Entry(files[0].key, Obj(FileMembers(files[0].value, open)))
    ensures FileEntries(files, open)[1..] == FileEntries(files[1..], open)
    ensures AllReceived(files, open) == [Entry(files[0].key, Received(files[0].value, open))] + AllReceived(files[1..], open)
  {
    hide FileMembers, Received;
  }

  lemma KeysStaySorted<V>(before: Entries<V>, more: Entries<V>, now: Entries<V>)
    requires Sorted(before + more) && more != []
    requires |now| == |before| + 1 && now[..|before|] == before && now[|before|].key == more[0].key
    ensures Sorted(now + more[1..]) && forall e <- before :: Less(e.key, more[0].key)
  {
    hide Less;
    var all, r := before + more, now + more[1..];
    forall e <- before ensures Less(e.key, more[0].key) {
      var i :| 0 <= i < |before| && before[i] == e;
      assert Less(all[i].key, all[|before|].key);
    }
    assert forall i :: 0 <= i < |r| ==> r[i].key == all[i].key;
    forall i, j | 0 <= i < j < |r| ensures Less(r[i].key, r[j].key) {
      assert Less(all[i].key, all[j].key);
    }
  }

  ghost predicate ValidRequest(d: PrepareRequest) {
    ValidPort(d.info.port) && ValidFiles(d.files)
  }

  /** A prepare-upload request survives the wire, up to the file types filled in on the way. */
  lemma RequestArrives(d: PrepareRequest, open: Open)
    requires ValidRequest(d)
    ensures var text := Dump(RequestJson(d, open));
            ParseJson(text).Some?
            && RequestFrom(ParseJson(text).value, open) == Some(d.(files := AllReceived(d.files, open)))
  {
    hide Assign, Lookup, Printable, RegisterMembers, RegisterFrom, FilesMembers, FileEntries, FilesFrom,
         Dump, ParseJson, AllReceived, HoldsRegister;
    RegisterIsSet(d.info);
    RegisterIsRead(RegisterMembers(d.info), d.info, open);
    FilesAreSet(d.files, open);
    assert [] + d.files == d.files;
    FilesAreRead([], d.files, open);
    assert [] + AllReceived(d.files, open) == AllReceived(d.files, open);
    EmptyIsPrintable();
    Set([], "info", Obj(RegisterMembers(d.info)));
    Set(Assign([], "info", Obj(RegisterMembers(d.info))), "files", Obj(FilesMembers(d.files, open)));
    ParseDump(RequestJson(d, open));
  }

  /** The request comes back unchanged exactly when no file type had to be filled in. */
  lemma RequestRoundTrip(d: PrepareRequest, open: Open)
    requires ValidRequest(d)
    ensures var text := Dump(RequestJson(d, open));
            ParseJson(text).Some?
            && (RequestFrom(ParseJson(text).value, open) == Some(d)
                <==> forall f <- d.files :: f.value.fileType != "" || open.mime(f.value.fileName) == "")
  {
    hide RequestJson, RequestFrom, Dump, ParseJson;
    RequestArrives(d, open);
    var r := AllReceived(d.files, open);
    if forall f <- d.files :: f.value.fileType != "" || open.mime(f.value.fileName) == "" {
      assert r == d.files;
    } else {
      var f :| f in d.files && f.value.fileType == "" && open.mime(f.value.fileName) != "";
      var i :| 0 <= i < |d.files| && d.files[i] == f;
      assert r[i] != d.files[i];
    }
  }

  function TokenEntries(tokens: Entries<string>): (ms: Entries<Json>)
    ensures |ms| == |tokens|
  {
    seq(|tokens|, i requires 0 <= i < |tokens| => Entry(tokens[i].key, Str(tokens[i].value)))
  }

  lemma {:induction false} TokensAreSet(tokens: Entries<string>)
    requires Sorted(tokens)
    ensures TokensMembers(tokens) == TokenEntries(tokens) && Printable(Obj(TokenEntries(tokens)))
  {
    hide Assign, Less;
    TextsArePrintable();
    if tokens != [] {
      var (front, last) := (tokens[..|tokens| - 1], tokens[|tokens| - 1]);
      TokensAreSet(front);
      InsertAbove(TokenEntries(front), last.key, Str(last.value));
    }
  }

  lemma {:induction false} TokensAreRead(before: Entries<string>, tokens: Entries<string>)
    requires Sorted(before + tokens)
    ensures TokensFrom(before, TokenEntries(tokens)) == Some(before + tokens)
    decreases |tokens|
  {
    hide Emplace, Less;
    if tokens != [] {
      var t := tokens[0];
      KeysStaySorted(before, tokens, before + [t]);
      InsertAbove(before, t.key, t.value);
      assert [t] == [Entry(t.key, t.value)];
      assert before + [t] + tokens[1..] == before + tokens;
      assert TokenEntries(tokens)[0] == Entry(t.key, Str(t.value));
      assert TokenEntries(tokens)[1..] == TokenEntries(tokens[1..]);
      TokensAreRead(before + [t], tokens[1..]);
    } else {
      assert before + tokens == before;
    }
  }

  lemma ResponseIsPrintable(d: PrepareResponse)
    requires Sorted(d.files)
    ensures Printable(ResponseJson(d)) && ResponseFrom(ResponseJson(d)) == Some(d)
  {
    hide Assign, Lookup, Printable, TokensMembers, TokenEntries, TokensFrom;
    TokensAreSet(d.files);
    assert [] + d.files == d.files;
    TokensAreRead([], d.files);
    EmptyIsPrintable();
    TextsArePrintable();
    Set([], "sessionId", Str(d.sessionId));
    Set(Assign([], "sessionId", Str(d.sessionId)), "files", Obj(TokensMembers(d.files)));
  }

  lemma ResponseRoundTrip(d: PrepareResponse)
    requires Sorted(d.files)
    ensures var text := Dump(ResponseJson(d));
            ParseJson(text).Some? && ResponseFrom(ParseJson(text).value) == Some(d)
  {
    hide ResponseJson, ResponseFrom, Dump, ParseJson;
    ResponseIsPrintable(d);
    ParseDump(ResponseJson(d));
  }

  lemma IntIsPrintable(n: int)
    requires -EXACT_LIMIT <= n <= EXACT_LIMIT
    ensures IntJson(n) == Num(Whole(n)) && Printable(IntJson(n))
  {
  }

  lemma EmptyIsPrintable()
    ensures Printable(Obj([])) && forall k :: Lookup<Json>([], k).None?
  {
  }

  lemma TextsArePrintable()
    ensures forall s: string :: Printable(Str(s))
    ensures forall b: bool :: Printable(Bool(b))
  {
  }

  // ---------- What is accepted from other programs ----------

  /** A string member; one that is missing or null stands for the fallback. */
  ghost predicate StringField(m: Entries<Json>, key: string, fallback: string, s: string) {
    match Lookup(m, key)
    case None => s == fallback
    case Some(j) => if j == Null then s == fallback else j == Str(s)
  }

  ghost predicate BoolField(m: Entries<Json>, key: string, fallback: bool, b: bool) {
    match Lookup(m, key)
    case None => b == fallback
    case Some(j) => if j == Null then b == fallback else j == Bool(b)
  }

  /** A number, cut to 32 bits with its sign. */
  ghost predicate IntField(m: Entries<Json>, key: string, fallback: int, n: int, open: Open) {
    match Lookup(m, key)
    case None => n == fallback
    case Some(j) =>
      if j == Null then n == fallback
      else
        && j.Num? && -0x8000_0000 <= n < 0x8000_0000
        && ((if j.num.Whole? then j.num.n else open.cast(j.num.text)) - n) % 0x1_0000_0000 == 0
  }

  /** The names of the device types; any other text is a desktop. */
  ghost predicate NamesType(s: string, d: DeviceType) {
    match d
    case Mobile => s == "mobile"
    case Web => s == "web"
    case Headless => s == "headless"
    case Server => s == "server"
    case Desktop => s !in {"mobile", "web", "headless", "server"}
  }

  lemma DeviceTypeExactly(s: string, d: DeviceType)
    ensures DeviceTypeFrom(s) == d <==> NamesType(s, d)
    ensures NamesType(DeviceTypeText(d), d) && DeviceTypeText(Desktop) == "desktop"
  {
  }

  lemma StringFieldIs(m: Entries<Json>, key: string, fallback: string, s: string)
    ensures OptionalString(Obj(m), key, fallback) == Some(s) <==> StringField(m, key, fallback, s)
  {
  }

  lemma BoolFieldIs(m: Entries<Json>, key: string, fallback: bool, b: bool)
    ensures OptionalBool(Obj(m), key, fallback) == Some(b) <==> BoolField(m, key, fallback, b)
  {
  }

  lemma CutTo32(k: int, n: int)
    ensures ToInt32(k) == n <==> -0x8000_0000 <= n < 0x8000_0000 && (k - n) % 0x1_0000_0000 == 0
  {
    var x, m := k + 0x8000_0000, 0x1_0000_0000;
    assert x == x / m * m + x % m && k - ToInt32(k) == x / m * m;
    if -0x8000_0000 <= n < 0x8000_0000 && (k - n) % m == 0 {
      assert k - n == (k - n) / m * m;
      DivModUnique(x, m, (k - n) / m, n + 0x8000_0000);
    }
    DivModUnique(k - ToInt32(k), m, x / m, 0);
  }

  lemma IntFieldIs(m: Entries<Json>, key: string, fallback: int, n: int, open: Open)
    ensures OptionalInt(Obj(m), key, fallback, open) == Some(n) <==> IntField(m, key, fallback, n, open)
  {
    hide ToInt32, Lookup;
    var j := Lookup(m, key);
    if j.Some? && j.value.Num? { CutTo32(if j.value.num.Whole? then j.value.num.n else open.cast(j.value.num.text), n); }
  }

  ghost predicate TypeField(m: Entries<Json>, d: DeviceType) {
    exists s: string :: StringField(m, "deviceType", "desktop", s) && NamesType(s, d)
  }

  /** The texts that are read as this device: the alias is there, everything else may be missing or null,
      and nothing may have another type. */
  ghost predicate TellsInfo(m: Entries<Json>, d: Info) {
    && Lookup(m, "alias") == Some(Str(d.alias))
    && StringField(m, "version", "2.1", d.version) && StringField(m, "deviceModel", "Unknown", d.deviceModel)
    && TypeField(m, d.deviceType) && StringField(m, "fingerprint", "", d.fingerprint)
    && BoolField(m, "download", false, d.download)
  }

  lemma InfoExactly(j: Json, d: Info)
    ensures InfoFrom(j) == Some(d) <==> j.Obj? && TellsInfo(j.members, d)
  {
    hide Lookup, DeviceTypeFrom, NamesType, StringField, BoolField, OptionalString, OptionalBool;
    if j.Obj? {
      StringFieldIs(j.members, "version", "2.1", d.version);
      StringFieldIs(j.members, "deviceModel", "Unknown", d.deviceModel);
      StringFieldIs(j.members, "fingerprint", "", d.fingerprint);
      BoolFieldIs(j.members, "download", false, d.download);
      forall s: string
        ensures OptionalString(j, "deviceType", "desktop") == Some(s) <==> StringField(j.members, "deviceType", "desktop", s)
        ensures DeviceTypeFrom(s) == d.deviceType <==> NamesType(s, d.deviceType)
      {
        StringFieldIs(j.members, "deviceType", "desktop", s);
        DeviceTypeExactly(s, d.deviceType);
      }
    }
  }

  ghost predicate TellsRegister(m: Entries<Json>, d: InfoRegister, open: Open) {
    && TellsInfo(m, d.info) && IntField(m, "port", 53317, d.port, open)
    && exists s: string :: StringField(m, "protocol", "http", s) && (d.protocol == Https <==> s == "https")
  }

  lemma RegisterExactly(j: Json, d: InfoRegister, open: Open)
    ensures RegisterFrom(j, open) == Some(d) <==> j.Obj? && TellsRegister(j.members, d, open)
  {
    hide Lookup, InfoFrom, TellsInfo, StringField, IntField, OptionalString, OptionalInt;
    InfoExactly(j, d.info);
    if j.Obj? {
      IntFieldIs(j.members, "port", 53317, d.port, open);
      forall s: string
        ensures OptionalString(j, "protocol", "http") == Some(s) <==> StringField(j.members, "protocol", "http", s)
      {
        StringFieldIs(j.members, "protocol", "http", s);
      }
    }
  }

  lemma MulticastExactly(j: Json, d: Multicast, open: Open)
    ensures MulticastFrom(j, open) == Some(d)
       <==> j.Obj? && TellsRegister(j.members, d.register, open) && BoolField(j.members, "announce", true, d.announce)
  {
    hide Lookup, RegisterFrom, TellsRegister, BoolField, OptionalBool;
    RegisterExactly(j, d.register, open);
    if j.Obj? { BoolFieldIs(j.members, "announce", true, d.announce); }
  }

  /** The size is taken modulo 2^64. */
  ghost predicate TellsFile(m: Entries<Json>, d: FileDto, open: Open) {
    && Lookup(m, "id") == Some(Str(d.id)) && Lookup(m, "fileName") == Some(Str(d.fileName))
    && StringField(m, "fileType", open.mime(d.fileName), d.fileType)
    && StringField(m, "hash", "", d.hash) && StringField(m, "preview", "", d.preview)
    && var size := Lookup(m, "size");
       && size.Some? && size.value.Num?
       && d.size == (if size.value.num.Whole? then size.value.num.n else open.cast(size.value.num.text)) % SIZE_LIMIT
  }

  lemma FileExactly(j: Json, d: FileDto, open: Open)
    ensures FileFrom(j, open) == Some(d) <==> j.Obj? && TellsFile(j.members, d, open)
  {
    hide Lookup, StringField, OptionalString;
    if j.Obj? {
      StringFieldIs(j.members, "fileType", open.mime(d.fileName), d.fileType);
      StringFieldIs(j.members, "hash", "", d.hash);
      StringFieldIs(j.members, "preview", "", d.preview);
    }
  }

  /** Every file tells what it is; of files with one key the first stays. */
  ghost predicate TellsFiles(ms: Entries<Json>, dtos: seq<FileDto>, open: Open) {
    |dtos| == |ms| && forall i :: 0 <= i < |ms| ==> ms[i].value.Obj? && TellsFile(ms[i].value.members, dtos[i], open)
  }

  function AllEmplaced<V>(before: Entries<V>, keys: seq<string>, values: seq<V>): Entries<V>
    requires |keys| == |values|
    decreases |keys|
  {
    if keys == [] then before else AllEmplaced(Emplace(before, keys[0], values[0]), keys[1..], values[1..])
  }

  function KeysOf<V>(ms: Entries<V>): (keys: seq<string>)
    ensures |keys| == |ms|
  {
    seq(|ms|, i requires 0 <= i < |ms| => ms[i].key)
  }

  lemma {:induction false} FilesExactly(before: Entries<FileDto>, ms: Entries<Json>, open: Open)
    ensures FilesFrom(before, ms, open).Some? <==> exists dtos :: TellsFiles(ms, dtos, open)
    ensures forall dtos :: TellsFiles(ms, dtos, open)
                           ==> FilesFrom(before, ms, open) == Some(AllEmplaced(before, KeysOf(ms), dtos))
    decreases |ms|
  {
    hide FileFrom, TellsFile, Emplace;
    if ms == [] {
      assert TellsFiles(ms, [], open);
    } else {
      var f := FileFrom(ms[0].value, open);
      forall d: FileDto ensures f == Some(d) <==> ms[0].value.Obj? && TellsFile(ms[0].value.members, d, open) {
        FileExactly(ms[0].value, d, open);
      }
      if f.Some? {
        FilesExactly(Emplace(before, ms[0].key, f.value), ms[1..], open);
        FirstTold(ms, f.value, open);
      } else {
        forall dtos ensures !TellsFiles(ms, dtos, open) { }
      }
      assert KeysOf(ms)[1..] == KeysOf(ms[1..]);
    }
  }

  lemma FirstTold(ms: Entries<Json>, d: FileDto, open: Open)
    requires ms != [] && ms[0].value.Obj?
    requires forall e: FileDto :: TellsFile(ms[0].value.members, e, open) <==> e == d
    ensures forall dtos :: TellsFiles(ms, dtos, open) <==> dtos != [] && dtos[0] == d && TellsFiles(ms[1..], dtos[1..], open)
    ensures (exists dtos :: TellsFiles(ms, dtos, open)) <==> exists dtos :: TellsFiles(ms[1..], dtos, open)
  {
    hide TellsFile;
    forall dtos ensures TellsFiles(ms, dtos, open) <==> dtos != [] && dtos[0] == d && TellsFiles(ms[1..], dtos[1..], open) {
      assert forall i :: 0 < i < |ms| ==> ms[i] == ms[1..][i - 1];
      assert forall i :: 0 < i < |dtos| ==> dtos[i] == dtos[1..][i - 1];
    }
    if dtos :| TellsFiles(ms[1..], dtos, open) { assert ([d] + dtos)[1..] == dtos && TellsFiles(ms, [d] + dtos, open); }
  }

  /** A request is read exactly from an object with such a device and an object of such files. */
  lemma RequestExactly(j: Json, d: PrepareRequest, open: Open)
    ensures RequestFrom(j, open) == Some(d)
       <==> && j.Obj?
            && var info, files := Lookup(j.members, "info"), Lookup(j.members, "files");
               && info.Some? && info.value.Obj? && TellsRegister(info.value.members, d.info, open)
               && files.Some? && files.value.Obj? && FilesFrom([], files.value.members, open) == Some(d.files)
  {
    hide Lookup, RegisterFrom, TellsRegister, FilesFrom;
    if j.Obj? && Lookup(j.members, "info").Some? { RegisterExactly(Lookup(j.members, "info").value, d.info, open); }
  }

  lemma {:induction false} TokensExactly(before: Entries<string>, ms: Entries<Json>)
    ensures TokensFrom(before, ms).Some? <==> forall e <- ms :: e.value.Str?
    ensures forall texts: seq<string> :: |texts| == |ms| && (forall i :: 0 <= i < |ms| ==> ms[i].value == Str(texts[i]))
                                        ==> TokensFrom(before, ms) == Some(AllEmplaced(before, KeysOf(ms), texts))
    decreases |ms|
  {
    hide Emplace;
    if ms != [] {
      assert ms[0] in ms && forall e <- ms :: e == ms[0] || e in ms[1..];
      assert forall e <- ms[1..] :: e in ms;
      if ms[0].value.Str? {
        TokensExactly(Emplace(before, ms[0].key, ms[0].value.s), ms[1..]);
        assert KeysOf(ms)[1..] == KeysOf(ms[1..]);
        forall texts: seq<string> | |texts| == |ms| && (forall i :: 0 <= i < |ms| ==> ms[i].value == Str(texts[i]))
          ensures TokensFrom(before, ms) == Some(AllEmplaced(before, KeysOf(ms), texts))
        {
          assert forall i :: 0 <= i < |ms[1..]| ==> ms[1..][i].value == Str(texts[1..][i]);
        }
      }
    }
  }

  lemma ResponseExactly(j: Json, d: PrepareResponse)
    ensures ResponseFrom(j) == Some(d)
       <==> && j.Obj? && Lookup(j.members, "sessionId") == Some(Str(d.sessionId))
            && var files := Lookup(j.members, "files");
               files.Some? && files.value.Obj? && TokensFrom([], files.value.members) == Some(d.files)
  {
    hide Lookup, TokensFrom;
  }

  /** The value of the first entry with that key. */
  function FirstOf<V>(keys: seq<string>, values: seq<V>, key: string): Option<V>
    requires |keys| == |values|
  {
    if keys == [] then None
    else if keys[0] == key then Some(values[0])
    else FirstOf(keys[1..], values[1..], key)
  }

  lemma {:induction false} FirstDecides<V>(before: Entries<V>, keys: seq<string>, values: seq<V>, key: string)
    requires |keys| == |values| && Sorted(before)
    ensures Sorted(AllEmplaced(before, keys, values))
    ensures Lookup(AllEmplaced(before, keys, values), key)
         == if Lookup(before, key).Some? then Lookup(before, key) else FirstOf(keys, values, key)
    decreases |keys|
  {
    hide Emplace, Lookup, Less;
    if keys != [] {
      EmplaceKeepsSorted(before, keys[0], values[0]);
      FirstDecides(Emplace(before, keys[0], values[0]), keys[1..], values[1..], key);
    }
  }
}
