/** The two gates a customer ZIP passes: inspection at upload (infrastructure/hosting-upload/zip_safety.py) and
    the checks of the builder that unpacks it (infrastructure/hosting-builder/verified_zip.py). */
module ZipPolicy {
  import opened Collections

  /** A central-directory record, as zipfile reports it. */
  datatype Member = Member(name: string, encrypted: bool, mode: nat, fileSize: nat, compressSize: nat) {
    predicate IsDirectory() {
      name != "" && name[|name| - 1] == '/'
    }
  }

  datatype Limits = Limits(maxFiles: nat, maxUnpacked: nat, maxRatio: nat, maxSingleFile: nat)

  datatype Inspection = Inspection(fileCount: nat, unpacked: nat, compressed: nat)

  const BUILDER := Limits(100_000, 2 * 1024 * 1024 * 1024, 250, 512 * 1024 * 1024)

  // ----- Paths -----

  /** PurePosixPath's parts of a relative name: the pieces between slashes, without empty ones and dots. */
  function Parts(name: string): (parts: seq<string>)
    ensures "" !in parts && "." !in parts
  {
    PartsFrom(name, "")
  }

  /** Parts of `piece + rest`, where no slash has been met since `piece` began. */
  function PartsFrom(rest: string, piece: string): (parts: seq<string>)
    ensures "" !in parts && "." !in parts
  {
    if rest == "" then Part(piece)
    else if rest[0] == '/' then Part(piece) + PartsFrom(rest[1..], "")
    else PartsFrom(rest[1..], piece + [rest[0]])
  }

  function Part(piece: string): seq<string> {
    if piece == "" || piece == "." then [] else [piece]
  }

  function JoinParts(parts: seq<string>): string {
    if parts == [] then ""
    else if |parts| == 1 then parts[0]
    else parts[0] + "/" + JoinParts(parts[1..])
  }

  /** as_posix: the key under which both gates look for duplicates. */
  function Normalized(name: string): string {
    if Parts(name) == [] then "." else JoinParts(Parts(name))
  }

  predicate IsAbsolute(name: string) {
    name != "" && name[0] == '/'
  }

  /** What both gates demand of a name. */
  predicate IsPlainName(name: string) {
    && name != "" && 0 as char !in name && '\\' !in name && |name| <= 1024
    && !IsAbsolute(name) && ".." !in Parts(name)
  }

  /** What inspection demands besides: no home directory, no drive letter. */
  predicate IsSafeName(name: string) {
    && IsPlainName(name) && name[0] != '~'
    && !(Parts(name) != [] && |Parts(name)[0]| >= 2 && Parts(name)[0][1] == ':')
  }

  // ----- What the parts of a path are -----

  /** The pieces between the slashes of a name. */
  function Pieces(name: string): (pieces: seq<string>)
    ensures pieces != [] && JoinParts(pieces) == name
    ensures forall p :: p in pieces ==> '/' !in p
  {
    if name == "" then [""]
    else
      var rest := Pieces(name[1..]);
      if name[0] == '/' then
        assert ([""] + rest)[1..] == rest;
        [""] + rest
      else
        var longer := [[name[0]] + rest[0]] + rest[1..];
        assert longer[1..] == rest[1..];
        longer
  }

  /** Those that are neither empty nor a single dot. */
  function Named(pieces: seq<string>): (parts: seq<string>)
    ensures forall p :: p in parts <==> p in pieces && p != "" && p != "."
  {
    if pieces == [] then []
    else if pieces[0] == "" || pieces[0] == "." then Named(pieces[1..])
    else [pieces[0]] + Named(pieces[1..])
  }

  lemma {:induction false} PartsSplit(x: string, y: string, piece: string)
    ensures PartsFrom(x + "/" + y, piece) == PartsFrom(x, piece) + PartsFrom(y, "")
  {
    var name := x + "/" + y;
    if x == "" {
      assert name[0] == '/' && name[1..] == y;
    } else {
      assert name[0] == x[0] && name[1..] == x[1..] + "/" + y;
      PartsSplit(x[1..], y, if x[0] == '/' then "" else piece + [x[0]]);
    }
  }

  lemma {:induction false} PartsOfPiece(x: string, piece: string)
    requires '/' !in x
    ensures PartsFrom(x, piece) == Part(piece + x)
  {
    if x == "" {
      assert piece + x == piece;
    } else {
      PartsOfPiece(x[1..], piece + [x[0]]);
      assert piece + [x[0]] + x[1..] == piece + x;
    }
  }

  lemma {:induction false} PartsOfPieces(pieces: seq<string>)
    requires pieces != [] && forall p :: p in pieces ==> '/' !in p
    ensures Parts(JoinParts(pieces)) == Named(pieces)
  {
    assert pieces[0] in pieces;
    PartsOfPiece(pieces[0], "");
    assert "" + pieces[0] == pieces[0];
    if |pieces| == 1 {
      assert pieces[1..] == [];
    } else {
      PartsSplit(pieces[0], JoinParts(pieces[1..]), "");
      PartsOfPieces(pieces[1..]);
    }
  }

  /** The parts of a name are exactly its pieces between slashes, in order, without empty ones and single dots. */
  lemma PartsAreNamedPieces(name: string)
    ensures Parts(name) == Named(Pieces(name))
  {
    PartsOfPieces(Pieces(name));
  }

  /** Two names are duplicates exactly when they have the same parts. */
  lemma SamePathMeansSameParts(a: string, b: string)
    ensures Normalized(a) == Normalized(b) <==> Named(Pieces(a)) == Named(Pieces(b))
  {
    PartsAreNamedPieces(a);
    PartsAreNamedPieces(b);
    PathHasParts(a);
    PathHasParts(b);
  }

  lemma PathHasParts(name: string)
    ensures Parts(Normalized(name)) == Parts(name)
  {
    var parts := Parts(name);
    PartsAreNamedPieces(name);
    if parts == [] {
      PartsOfPiece(".", "");
    } else {
      PartsOfPieces(parts);
      NamedKeepsParts(parts);
    }
  }

  lemma {:induction false} NamedKeepsParts(parts: seq<string>)
    requires "" !in parts && "." !in parts
    ensures Named(parts) == parts
  {
    if parts != [] {
      NamedKeepsParts(parts[1..]);
    }
  }

  /** A step upwards anywhere in a name is one of its parts. */
  lemma StepUpIsPart(before: string, after: string)
    requires before == "" || before[|before| - 1] == '/'
    requires after == "" || after[0] == '/'
    ensures ".." in Parts(before + ".." + after)
  {
    var name, up := before + ".." + after, ".." + after;
    PartsOfPiece("..", "");
    assert "" + ".." == "..";
    if after == "" {
      assert up == "..";
    } else {
      assert up == ".." + "/" + after[1..];
      PartsSplit("..", after[1..], "");
    }
    if before == "" {
      assert name == up;
    } else {
      assert name == before[..|before| - 1] + "/" + up;
      PartsSplit(before[..|before| - 1], up, "");
    }
  }

  /** So neither gate lets through an archive with such a member. */
  lemma StepUpIsRefused(members: seq<Member>, m: Member, before: string, after: string, limits: Limits)
    requires m in members && m.name == before + ".." + after
    requires before == "" || before[|before| - 1] == '/'
    requires after == "" || after[0] == '/'
    ensures !IsAccepted(members, limits) && !IsBuildable(members)
  {
    StepUpIsPart(before, after);
  }

  // ----- File types -----

  /** S_IFMT: the type bits of a Unix mode. */
  function TypeBits(mode: nat): nat {
    mode % 0x1_0000 / 0x1000
  }

  predicate IsFileOrDirectory(mode: nat) {
    TypeBits(mode) in {0, 0x8, 0x4}
  }

  // ----- What acceptance means -----

  function Files(members: seq<Member>): (files: seq<Member>)
    ensures forall m :: m in files <==> m in members && !(m.name != "" && m.name[|m.name| - 1] == '/')
  {
    if members == [] then []
    else
      var last := members[|members| - 1];
      var front := members[..|members| - 1];
      assert members == front + [last];
      Files(front) + if last.IsDirectory() then [] else [last]
  }

  function TotalSize(files: seq<Member>): nat {
    if files == [] then 0 else TotalSize(files[..|files| - 1]) + files[|files| - 1].fileSize
  }

  function TotalCompressed(files: seq<Member>): nat {
    if files == [] then 0 else TotalCompressed(files[..|files| - 1]) + files[|files| - 1].compressSize
  }

  function Names(members: seq<Member>): seq<string> {
    seq(|members|, i requires 0 <= i < |members| => Normalized(members[i].name))
  }

  /** One file within the per-file size and ratio limits. */
  predicate IsWithin(file: Member, limits: Limits) {
    file.fileSize <= limits.maxSingleFile && file.fileSize <= limits.maxRatio * file.compressSize
  }

  predicate IsUsableEntry(member: Member) {
    !member.encrypted && IsFileOrDirectory(member.mode)
  }

  /** Every limit that can be exceeded on the way, for the members so far. */
  ghost predicate Passes(members: seq<Member>, limits: Limits) {
    && NoRepeats(Names(members))
    && AllUsable(members)
    && |Files(members)| <= limits.maxFiles
    && AllWithin(Files(members), limits)
    && TotalSize(Files(members)) <= limits.maxUnpacked
  }

  /** All limits but the aggregate ratio, of which nothing is said. */
  ghost predicate MeetsLimits(members: seq<Member>, limits: Limits) {
    Passes(members, limits) && |Files(members)| >= 1
  }

  ghost predicate IsAccepted(members: seq<Member>, limits: Limits) {
    (forall m :: m in members ==> IsSafeName(m.name)) && MeetsLimits(members, limits)
  }

  ghost predicate IsBuildable(members: seq<Member>) {
    (forall m :: m in members ==> IsPlainName(m.name)) && MeetsLimits(members, BUILDER)
  }

  // ----- Acceptance, said of names and numbers alone -----

  /** A relative name without NUL, backslash or a step upwards, of at most 1024 characters. */
  predicate IsRelativeName(name: string) {
    && 1 <= |name| <= 1024 && name[0] != '/'
    && (forall i :: 0 <= i < |name| ==> name[i] != 0 as char && name[i] != '\\')
    && forall p :: p in Pieces(name) ==> p != ".."
  }

  lemma PlainNamesAreRelative(name: string)
    ensures IsPlainName(name) <==> IsRelativeName(name)
  {
    PartsAreNamedPieces(name);
  }

  /** Nor, at inspection, the name of a home directory or one that begins with a drive letter. */
  predicate IsInnocentName(name: string) {
    && IsRelativeName(name) && name[0] != '~'
    && var parts := Named(Pieces(name)); (parts != [] && |parts[0]| >= 2 ==> parts[0][1] != ':')
  }

  lemma SafeNamesAreInnocent(name: string)
    ensures IsSafeName(name) <==> IsInnocentName(name)
  {
    PlainNamesAreRelative(name);
    PartsAreNamedPieces(name);
  }

  /** The upper four of sixteen mode bits: none, a directory or a regular file. */
  predicate IsPlainMode(mode: nat) {
    var bits := mode % 0x1_0000;
    bits < 0x1000 || 0x4000 <= bits < 0x5000 || 0x8000 <= bits < 0x9000
  }

  lemma ModesOfFiles(mode: nat)
    ensures IsFileOrDirectory(mode) <==> IsPlainMode(mode)
  {
  }

  /** What the limits of a gate say about the members of an archive, one by one and together. */
  ghost predicate IsWithinLimits(members: seq<Member>, maxFiles: nat, maxUnpacked: nat, maxRatio: nat, maxSingleFile: nat) {
    var files := Files(members);
    && (forall i, j :: 0 <= i < j < |members| ==> Named(Pieces(members[i].name)) != Named(Pieces(members[j].name)))
    && (forall m :: m in members ==> !m.encrypted && IsPlainMode(m.mode))
    && 1 <= |files| <= maxFiles && TotalSize(files) <= maxUnpacked
    && (forall f :: f in files ==> f.fileSize <= maxSingleFile && f.fileSize <= maxRatio * f.compressSize)
  }

  lemma LimitsMean(members: seq<Member>, limits: Limits)
    ensures MeetsLimits(members, limits) <==>
      IsWithinLimits(members, limits.maxFiles, limits.maxUnpacked, limits.maxRatio, limits.maxSingleFile)
  {
    var names := Names(members);
    forall m | m in members ensures IsFileOrDirectory(m.mode) <==> IsPlainMode(m.mode) {
      ModesOfFiles(m.mode);
    }
    if NoRepeats(names) {
      NoRepeatsIsDistinct(names);
    } else if Distinct(names) {
      DistinctCardinality(names);
    }
    forall i, j | 0 <= i < j < |members|
      ensures names[i] != names[j] <==> Named(Pieces(members[i].name)) != Named(Pieces(members[j].name))
    {
      SamePathMeansSameParts(members[i].name, members[j].name);
    }
  }

  /** Inspection takes exactly the archives of innocent names that are within its limits. */
  lemma AcceptedExactly(members: seq<Member>, limits: Limits)
    ensures IsAccepted(members, limits) <==>
      (forall m :: m in members ==> IsInnocentName(m.name))
      && IsWithinLimits(members, limits.maxFiles, limits.maxUnpacked, limits.maxRatio, limits.maxSingleFile)
  {
    LimitsMean(members, limits);
    forall m | m in members ensures IsSafeName(m.name) <==> IsInnocentName(m.name) {
      SafeNamesAreInnocent(m.name);
    }
  }

  /** The builder takes exactly the archives of relative names, with at most 100000 files of at most 512 MiB each and
      2 GiB in all, none expanding more than 250 times. */
  lemma BuildableExactly(members: seq<Member>)
    ensures IsBuildable(members) <==>
      (forall m :: m in members ==> IsRelativeName(m.name))
      && IsWithinLimits(members, 100000, 2147483648, 250, 536870912)
  {
    LimitsMean(members, BUILDER);
    forall m | m in members ensures IsPlainName(m.name) <==> IsRelativeName(m.name) {
      PlainNamesAreRelative(m.name);
    }
  }

  /** Limits at most as generous. */
  predicate IsStricter(a: Limits, b: Limits) {
    && a.maxFiles <= b.maxFiles && a.maxUnpacked <= b.maxUnpacked
    && a.maxRatio <= b.maxRatio && a.maxSingleFile <= b.maxSingleFile
  }

  /** Whatever inspection lets through, with limits no looser than the builder's, the builder accepts. */
  lemma InspectionImpliesBuild(members: seq<Member>, limits: Limits)
    requires IsAccepted(members, limits) && IsStricter(limits, BUILDER)
    ensures IsBuildable(members)
  {
    forall f | f in Files(members) ensures IsWithin(f, BUILDER) {
      LooserRatio(f, limits, BUILDER);
    }
  }

  lemma LooserRatio(file: Member, a: Limits, b: Limits)
    requires IsStricter(a, b) && IsWithin(file, a)
    ensures IsWithin(file, b)
  {
    assert a.maxRatio * file.compressSize <= b.maxRatio * file.compressSize;
  }

  /** Files within the ratio limit one by one are within it together: the aggregate check never fires. */
  lemma {:induction false} AggregateRatioHolds(files: seq<Member>, limits: Limits)
    requires AllWithin(files, limits)
    ensures TotalSize(files) <= limits.maxRatio * TotalCompressed(files)
  {
    if files != [] {
      AggregateRatioHolds(files[..|files| - 1], limits);
      assert files[|files| - 1] in files;
    }
  }

  /** The last two per-member tests of the source are the ratio limit: nothing may come from nothing. */
  lemma RatioTests(file: Member, limits: Limits)
    ensures file.fileSize <= limits.maxRatio * file.compressSize <==>
      !(file.fileSize > 0 && file.compressSize == 0)
      && !(file.compressSize > 0 && file.fileSize > limits.maxRatio * file.compressSize)
  {
  }

  // ----- The loops -----

  datatype Outcome<+T> = Accept(value: T) | Reject

  /** What one more member must satisfy for the limits to go on holding. */
  ghost predicate PassesNext(before: seq<Member>, m: Member, limits: Limits) {
    && Normalized(m.name) !in Elements(Names(before))
    && IsUsableEntry(m)
    && (!m.IsDirectory() ==>
         && |Files(before)| + 1 <= limits.maxFiles
         && IsWithin(m, limits)
         && TotalSize(Files(before)) + m.fileSize <= limits.maxUnpacked)
  }

  lemma NamesAppend(before: seq<Member>, m: Member)
    ensures Names(before + [m]) == Names(before) + [Normalized(m.name)]
  {
  }

  lemma OneMoreName(before: seq<Member>, m: Member)
    ensures Elements(Names(before + [m])) == Elements(Names(before)) + {Normalized(m.name)}
    ensures NoRepeats(Names(before + [m])) <==> NoRepeats(Names(before)) && Normalized(m.name) !in Elements(Names(before))
  {
    NamesAppend(before, m);
    NoRepeatsAppend(Names(before), Normalized(m.name));
  }

  lemma OneMoreFile(before: seq<Member>, m: Member)
    ensures Files(before + [m]) == if m.IsDirectory() then Files(before) else Files(before) + [m]
    ensures TotalSize(Files(before) + [m]) == TotalSize(Files(before)) + m.fileSize
    ensures TotalCompressed(Files(before) + [m]) == TotalCompressed(Files(before)) + m.compressSize
  {
    assert (before + [m])[..|before|] == before;
    assert (Files(before) + [m])[..|Files(before)|] == Files(before);
  }

  ghost predicate AllUsable(members: seq<Member>) {
    forall m :: m in members ==> IsUsableEntry(m)
  }

  ghost predicate AllWithin(files: seq<Member>, limits: Limits) {
    forall f :: f in files ==> IsWithin(f, limits)
  }

  lemma OneMoreChecked(s: seq<Member>, m: Member, limits: Limits)
    ensures AllUsable(s + [m]) <==> AllUsable(s) && IsUsableEntry(m)
    ensures AllWithin(s + [m], limits) <==> AllWithin(s, limits) && IsWithin(m, limits)
  {
    assert forall x :: x in s + [m] <==> x in s || x == m;
  }

  lemma PassesOneMore(before: seq<Member>, m: Member, limits: Limits)
    ensures Passes(before + [m], limits) <==> Passes(before, limits) && PassesNext(before, m, limits)
  {
    OneMoreName(before, m);
    OneMoreFile(before, m);
    OneMoreChecked(before, m, limits);
    OneMoreChecked(Files(before), m, limits);
  }

  /** A prefix that breaks a limit condemns the whole. */
  lemma {:induction false} PrefixPasses(members: seq<Member>, i: nat, limits: Limits)
    requires i <= |members| && Passes(members, limits)
    ensures Passes(members[..i], limits)
    decreases |members|
  {
    if i < |members| {
      var before, last := members[..|members| - 1], members[|members| - 1];
      assert members == before + [last];
      PassesOneMore(before, last, limits);
      assert Passes(before, limits);
      PrefixPasses(before, i, limits);
      assert before[..i] == members[..i];
    } else {
      assert members[..i] == members;
    }
  }

  lemma Judge(members: seq<Member>, i: nat, limits: Limits)
    requires i < |members| && Passes(members[..i], limits)
    ensures members[..i + 1] == members[..i] + [members[i]]
    ensures PassesNext(members[..i], members[i], limits) ==> Passes(members[..i + 1], limits)
    ensures !PassesNext(members[..i], members[i], limits) ==> !Passes(members, limits)
  {
    assert members[..i + 1] == members[..i] + [members[i]];
    PassesOneMore(members[..i], members[i], limits);
    if Passes(members, limits) {
      PrefixPasses(members, i + 1, limits);
    }
  }

  /** The running totals of both loops. */
  ghost predicate Counts(members: seq<Member>, fileCount: nat, unpacked: nat, compressed: nat, seen: set<string>) {
    && seen == Elements(Names(members))
    && fileCount == |Files(members)|
    && unpacked == TotalSize(Files(members))
    && compressed == TotalCompressed(Files(members))
  }

  lemma CountsOneMore(before: seq<Member>, m: Member, fileCount: nat, unpacked: nat, compressed: nat, seen: set<string>)
    requires Counts(before, fileCount, unpacked, compressed, seen)
    ensures m.IsDirectory() ==> Counts(before + [m], fileCount, unpacked, compressed, seen + {Normalized(m.name)})
    ensures !m.IsDirectory() ==> Counts(before + [m], fileCount + 1, unpacked + m.fileSize,
                                        compressed + m.compressSize, seen + {Normalized(m.name)})
  {
    OneMoreName(before, m);
    OneMoreFile(before, m);
  }

  datatype Totals = Totals(fileCount: nat, unpacked: nat, compressed: nat, seen: set<string>)

  ghost predicate AreTotals(members: seq<Member>, t: Totals) {
    Counts(members, t.fileCount, t.unpacked, t.compressed, t.seen)
  }

  /** What both loops do with a member once its name is admitted: duplicates, encryption, file type, and for
      a file the count, its size, the running size and its ratio. */
  method CheckMember(info: Member, limits: Limits, before: Totals, ghost members: seq<Member>)
      returns (ok: bool, after: Totals)
    requires AreTotals(members, before)
    ensures ok <==> PassesNext(members, info, limits)
    ensures ok ==> AreTotals(members + [info], after)
  {
    CountsOneMore(members, info, before.fileCount, before.unpacked, before.compressed, before.seen);
    after := before;
    if Normalized(info.name) in before.seen {
      return false, after;
    }
    after := after.(seen := after.seen + {Normalized(info.name)});
    if info.encrypted || !IsFileOrDirectory(info.mode) {
      return false, after;
    }
    if info.IsDirectory() {
      return true, after;
    }
    after := after.(fileCount := after.fileCount + 1);
    if after.fileCount > limits.maxFiles || info.fileSize > limits.maxSingleFile {
      return false, after;
    }
    after := after.(unpacked := after.unpacked + info.fileSize, compressed := after.compressed + info.compressSize);
    if after.unpacked > limits.maxUnpacked {
      return false, after;
    }
    RatioTests(info, limits);
    if info.fileSize > 0 && info.compressSize == 0 {
      return false, after;
    }
    if info.compressSize > 0 && info.fileSize > limits.maxRatio * info.compressSize {
      return false, after;
    }
    ok := true;
  }

  /** inspect_zip. */
  method InspectZip(members: seq<Member>, limits: Limits) returns (r: Outcome<Inspection>)
    ensures r.Accept? <==> IsAccepted(members, limits)
    ensures r.Accept? ==> var files := Files(members);
      r.value == Inspection(|files|, TotalSize(files), TotalCompressed(files))
  {
    if members == [] {
      return Reject;
    }
    var totals := Totals(0, 0, 0, {});
    for i := 0 to |members|
      invariant forall m :: m in members[..i] ==> IsSafeName(m.name)
      invariant Passes(members[..i], limits) && AreTotals(members[..i], totals)
    {
      Judge(members, i, limits);
      if !IsSafeName(members[i].name) {
        return Reject;
      }
      var ok;
      ok, totals := CheckMember(members[i], limits, totals, members[..i]);
      if !ok {
        return Reject;
      }
    }
    assert members[..|members|] == members;
    if totals.fileCount < 1 {
      return Reject;
    }
    AggregateRatioHolds(Files(members), limits);
    if totals.compressed > 0 && totals.unpacked > limits.maxRatio * totals.compressed {
      return Reject;
    }
    r := Accept(Inspection(totals.fileCount, totals.unpacked, totals.compressed));
  }

  lemma OneMoreWritten(before: seq<Member>, m: Member)
    ensures Names(Files(before + [m])) ==
      if m.IsDirectory() then Names(Files(before)) else Names(Files(before)) + [Normalized(m.name)]
  {
    OneMoreFile(before, m);
    NamesAppend(Files(before), m);
  }

  /** The checking loop of materialize_verified_zip; `written` are the paths of the files it unpacks. */
  method MaterializeZip(members: seq<Member>) returns (r: Outcome<seq<string>>)
    ensures r.Accept? <==> IsBuildable(members)
    ensures r.Accept? ==> r.value == Names(Files(members))
  {
    var totals := Totals(0, 0, 0, {});
    var written: seq<string> := [];
    for i := 0 to |members|
      invariant forall m :: m in members[..i] ==> IsPlainName(m.name)
      invariant Passes(members[..i], BUILDER) && AreTotals(members[..i], totals)
      invariant written == Names(Files(members[..i]))
    {
      Judge(members, i, BUILDER);
      if !IsPlainName(members[i].name) {
        return Reject;
      }
      var ok;
      ok, totals := CheckMember(members[i], BUILDER, totals, members[..i]);
      if !ok {
        return Reject;
      }
      OneMoreWritten(members[..i], members[i]);
      if !members[i].IsDirectory() {
        written := written + [Normalized(members[i].name)];
      }
    }
    assert members[..|members|] == members;
    if totals.fileCount < 1 {
      return Reject;
    }
    AggregateRatioHolds(Files(members), BUILDER);
    if totals.compressed > 0 && totals.unpacked > BUILDER.maxRatio * totals.compressed {
      return Reject;
    }
    r := Accept(written);
  }
}
