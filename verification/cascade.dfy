/** The first pass of main.go over the track list: `normalizeTrack` and
    `preProcessTrack` without their file operations, the cascading-default
    resolver `setTrackDefaults`, the loop that threads the previous track
    through the list, and the aggregates the second pass and the feed read:
    `totalDiscs`, `totalTracks`, the "n/total" numbers of `setTags`,
    `validTracks`, `createdDate` and `updatedDate`. */
module Cascade {

  import opened Wrappers
  import opened GoStrconv
  import opened Tracks
  import Paths

  // ---------------------------------------------------------------------------
  // Configuration
  // ---------------------------------------------------------------------------

  /** The settings of config.yaml the first pass and `setTags` read. The
      copyright mask, a `Sprintf` format in the source, is the function it
      denotes; the two totals flags are the parsed `total_discs` and
      `total_tracks` settings. */
  datatype Config = Config(
    copyright: string,
    copyrightMask: (int, string) -> string,
    discNumber: string,
    trackNo: string,
    totalDiscs: bool,
    totalTracks: bool)

  /** `Sprintf("Copyright (c) & (p) %d, %s", year, artist)`, the built-in mask. */
  function DefaultCopyrightMask(year: int, artist: string): string
  {
    "Copyright (c) & (p) " + Itoa(year) + ", " + artist
  }

  /** The built-in settings: no fixed copyright, disc and track number "1",
      both totals on ("true"). */
  const DefaultConfig: Config := Config("", DefaultCopyrightMask, "1", "1", true, true)

  // ---------------------------------------------------------------------------
  // setTrackDefaults
  // ---------------------------------------------------------------------------

  /** One `if x == "" { x = y }` step of the resolver. */
  function OrElse(own: string, fallback: string): string
  {
    if own == "" then fallback else own
  }

  /** `strconv.Itoa(i + 1)` for the predecessor's number `i` when `Atoi`
      accepts it, with Go's 64-bit wrap-around; "" (still unset) when it does not. */
  function NextTrackNo(prev: string): (r: string)
    ensures !Atoi(prev).IntOk? ==> r == ""
    ensures Atoi(prev).IntOk? && Atoi(prev).value < MaxInt64 ==>
      r != "" && Atoi(r) == IntOk(Atoi(prev).value + 1)
    ensures Atoi(prev).IntOk? && Atoi(prev).value == MaxInt64 ==> Atoi(r) == IntOk(MinInt64)
    ensures Atoi(prev).IntOk? ==> r == Itoa(Wrap64(Atoi(prev).value + 1))
  {
    var a := Atoi(prev);
    WrapAfterMax();
    if a.IntOk? then NextText(a.value) else ""
  }

  /** One past the largest 64-bit value wraps to the smallest. */
  lemma WrapAfterMax()
    ensures Wrap64(MaxInt64 + 1) == MinInt64
  {
  }

  /** The text of the number after `i` in Go's 64-bit arithmetic, which
      parses back to that number. */
  function NextText(i: int): (r: string)
    requires InInt64(i)
    ensures r == Itoa(Wrap64(i + 1)) && r != ""
    ensures Atoi(r) == IntOk(Wrap64(i + 1))
  {
    ParseIntItoa(Wrap64(i + 1));
    Itoa(Wrap64(i + 1))
  }

  /** An explicit disc number that differs from the predecessor's starts a new disc. */
  predicate NewDisc(t: Track, last: Track)
  {
    t.discNumber != "" && t.discNumber != last.discNumber
  }

  /** `setTrackDefaults` without the duration probe: a track without a title
      is refused and left alone; otherwise every empty field in turn takes
      the predecessor's value, then a configured or computed default, and an
      explicit change of disc restarts the numbering at "1". `year` is the
      year of the file's modification time. */
  function SetTrackDefaults(t: Track, last: Track, cfg: Config, year: int): (r: (bool, Track))
    ensures !r.0 <==> t.title == ""
    ensures !r.0 ==> r.1 == t
    ensures r.1.(artist := t.artist, albumArtist := t.albumArtist, track := t.track,
                 discNumber := t.discNumber, albumTitle := t.albumTitle,
                 copyright := t.copyright, genre := t.genre, year := t.year) == t
  {
    if t.title == "" then (false, t)
    else
      var artist := OrElse(t.artist, last.artist);
      var albumArtist := OrElse(OrElse(t.albumArtist, last.albumArtist), artist);
      var counted := OrElse(t.track, NextTrackNo(last.track));
      var trackNo := if NewDisc(t, last) then "1" else OrElse(counted, cfg.trackNo);
      var disc := OrElse(OrElse(t.discNumber, last.discNumber), cfg.discNumber);
      var computed := if cfg.copyright != "" then cfg.copyright else cfg.copyrightMask(year, artist);
      (true, t.(
        artist := artist,
        albumArtist := albumArtist,
        track := trackNo,
        discNumber := disc,
        albumTitle := OrElse(t.albumTitle, last.albumTitle),
        copyright := OrElse(OrElse(t.copyright, last.copyright), computed),
        genre := OrElse(t.genre, last.genre),
        year := OrElse(OrElse(t.year, last.year), Itoa(year))))
  }

  /** No field that is set on entry is overwritten, except the track number
      when the disc changes. */
  lemma DefaultsKeepGiven(t: Track, last: Track, cfg: Config, year: int)
    ensures forall f: Field :: f != TrackNo && GetField(t, f) != "" ==>
      GetField(SetTrackDefaults(t, last, cfg, year).1, f) == GetField(t, f)
    ensures t.track != "" && !NewDisc(t, last) ==> SetTrackDefaults(t, last, cfg, year).1.track == t.track
  {
    var r := SetTrackDefaults(t, last, cfg, year).1;
    forall f: Field | f != TrackNo && GetField(t, f) != ""
      ensures GetField(r, f) == GetField(t, f)
    {
      match f
      case Filename =>
      case AlbumArtist =>
      case AlbumTitle =>
      case Artist =>
      case Composer =>
      case Copyright =>
      case Description =>
      case DiscNumber =>
      case Genre =>
      case TrackNo =>
      case Subtitle =>
      case Summary =>
      case Title =>
      case Year =>
    }
  }

  /** Numbering on the same disc: an unset number follows the predecessor's
      when that one parses, and is the configured first number when it does not. */
  lemma DefaultsNumbering(t: Track, last: Track, cfg: Config, year: int)
    requires t.title != "" && t.track == "" && !NewDisc(t, last)
    ensures var r := SetTrackDefaults(t, last, cfg, year).1;
      && (Atoi(last.track).IntOk? && Atoi(last.track).value < MaxInt64 ==>
            Atoi(r.track) == IntOk(Atoi(last.track).value + 1)
            && r.track == Itoa(Atoi(last.track).value + 1))
      && (!Atoi(last.track).IntOk? ==> r.track == cfg.trackNo)
  {
    assert SetTrackDefaults(t, last, cfg, year).1.track == OrElse(NextTrackNo(last.track), cfg.trackNo);
  }

  /** An explicit disc number that differs from the predecessor's restarts
      the numbering at "1", even over an explicit track number; the first
      track of the list, whose predecessor is empty, counts as a new disc. */
  lemma DefaultsDiscChange(t: Track, last: Track, cfg: Config, year: int)
    requires t.title != "" && t.discNumber != ""
    ensures var r := SetTrackDefaults(t, last, cfg, year).1;
      && r.discNumber == t.discNumber
      && (t.discNumber != last.discNumber ==> r.track == "1")
      && (last == EmptyTrack ==> r.track == "1")
  {
  }

  /** The fallback chains of the resolver, field by field. */
  lemma DefaultsFallbacks(t: Track, last: Track, cfg: Config, year: int)
    requires t.title != ""
    ensures var r := SetTrackDefaults(t, last, cfg, year).1;
      && (t.artist == "" ==> r.artist == last.artist)
      && (t.albumArtist == "" && last.albumArtist != "" ==> r.albumArtist == last.albumArtist)
      && (t.albumArtist == "" && last.albumArtist == "" ==> r.albumArtist == r.artist)
      && (t.discNumber == "" && last.discNumber != "" ==> r.discNumber == last.discNumber)
      && (t.discNumber == "" && last.discNumber == "" ==> r.discNumber == cfg.discNumber)
      && (t.albumTitle == "" ==> r.albumTitle == last.albumTitle)
      && (t.genre == "" ==> r.genre == last.genre)
      && (t.copyright == "" && last.copyright != "" ==> r.copyright == last.copyright)
      && (t.copyright == "" && last.copyright == "" && cfg.copyright != "" ==> r.copyright == cfg.copyright)
      && (t.copyright == "" && last.copyright == "" && cfg.copyright == "" ==>
            r.copyright == cfg.copyrightMask(year, r.artist))
      && (t.year == "" && last.year != "" ==> r.year == last.year)
  {
  }

  /** A year taken from the file's modification time reads back as that year. */
  lemma DefaultsYearFromFile(t: Track, last: Track, cfg: Config, year: int)
    requires t.title != "" && t.year == "" && last.year == "" && InInt64(year)
    ensures Atoi(SetTrackDefaults(t, last, cfg, year).1.year) == IntOk(year)
  {
    ParseIntItoa(year);
  }

  /** After a successful call the number, the disc, the copyright and the
      year are all set, as long as the configured defaults are set and the
      mask never renders an empty notice. */
  lemma DefaultsComplete(t: Track, last: Track, cfg: Config, year: int)
    requires t.title != ""
    requires cfg.trackNo != "" && cfg.discNumber != ""
    requires forall y, a :: cfg.copyrightMask(y, a) != ""
    ensures var r := SetTrackDefaults(t, last, cfg, year);
      r.0 && r.1.track != "" && r.1.discNumber != "" && r.1.copyright != "" && r.1.year != ""
  {
  }

  /** Resolving a resolved track against the same predecessor changes it
      exactly when its disc number came from the configured default while
      the predecessor had none and its number is not already "1": that disc
      number now reads as a change of disc. In particular a fully populated
      track is not always left as it is. */
  lemma DefaultsIdempotentExactly(t: Track, last: Track, cfg: Config, year: int)
    requires t.title != ""
    ensures var r := SetTrackDefaults(t, last, cfg, year).1;
      SetTrackDefaults(r, last, cfg, year) == (true, r) <==>
        !(t.discNumber == "" && last.discNumber == "" && cfg.discNumber != "" && r.track != "1")
  {
    var r := SetTrackDefaults(t, last, cfg, year).1;
    var r2 := SetTrackDefaults(r, last, cfg, year).1;
    if t.discNumber == "" && last.discNumber == "" && cfg.discNumber != "" && r.track != "1" {
      assert r2.track == "1";
    } else {
      assert r2.track == r.track;
      assert r2 == r;
    }
  }

  /** The numbering example: after track "3" of disc "1" a track that sets
      neither becomes track "4" of disc "1". */
  lemma NumberingExample(t: Track, last: Track, cfg: Config, year: int)
    requires t.title != "" && t.track == "" && t.discNumber == ""
    requires last.track == "3" && last.discNumber == "1"
    ensures SetTrackDefaults(t, last, cfg, year).1.track == "4"
    ensures SetTrackDefaults(t, last, cfg, year).1.discNumber == "1"
  {
    assert Itoa(3) == last.track;
    ParseIntItoa(3);
    assert Itoa(4) == "4";
  }

  // ---------------------------------------------------------------------------
  // normalizeTrack, preProcessTrack and the first pass
  // ---------------------------------------------------------------------------

  /** What `os.Stat` reports about a file: its modification time in
      nanoseconds since the Unix epoch, its size in bytes, and the year of
      its modification time. */
  datatype FileInfo = FileInfo(modTime: int, size: int, year: int)

  /** main.go `normalizeTrack` with the rename succeeding: the current name
      always becomes the original name, even when one was recorded before,
      and the track takes the normalised name. */
  function NormalizeTrack(t: Track): (r: Track)
    ensures r.originalFilename == t.filename
    ensures Paths.NoBadChars(r.filename) && |r.filename| <= |t.filename|
    ensures t.filename != "" ==> r.filename != ""
    ensures Paths.NoBadChars(t.filename) ==> r.filename == t.filename
    ensures r.(filename := t.filename, originalFilename := t.originalFilename) == t
  {
    Paths.NormalizeFilenameValid(t.filename);
    assert Paths.NoBadChars(t.filename) ==> Paths.NormalizeFilename(t.filename) == t.filename by {
      if Paths.NoBadChars(t.filename) {
        Paths.NormalizeFilenameClean(t.filename);
      }
    }
    t.(originalFilename := t.filename, filename := Paths.NormalizeFilename(t.filename))
  }

  /** Normalising twice keeps the name but records the normalised name as the
      original one: the name the row gave is lost. */
  lemma NormalizeTrackTwice(t: Track)
    ensures NormalizeTrack(NormalizeTrack(t)).filename == NormalizeTrack(t).filename
    ensures NormalizeTrack(NormalizeTrack(t)).originalFilename == Paths.NormalizeFilename(t.filename)
    ensures !Paths.NoBadChars(t.filename) ==>
      NormalizeTrack(NormalizeTrack(t)).originalFilename != t.filename
  {
    Paths.NormalizeFilenameValid(t.filename);
  }

  /** `preProcessTrack`: a row without a file name is left alone; any other
      is normalised, stamped with the modification time and size of the
      normalised file, and resolved against its predecessor. `stat` stands
      for `os.Stat`, which is assumed to succeed. */
  function PreProcessTrack(t: Track, last: Track, cfg: Config, stat: string -> FileInfo): (r: Track)
    ensures t.filename == "" ==> r == t
    ensures t.filename != "" ==>
      && r.originalFilename == t.filename
      && r.filename != "" && Paths.NoBadChars(r.filename)
      && r.modTime == stat(r.filename).modTime && r.fileSize == stat(r.filename).size
      && r.title == t.title && r.subtitle == t.subtitle && r.processed == t.processed
      && r.durationMs == t.durationMs
  {
    if t.filename == "" then t
    else
      var n := NormalizeTrack(t);
      var info := stat(n.filename);
      SetTrackDefaults(n.(modTime := info.modTime, fileSize := info.size), last, cfg, info.year).1
  }

  /** A row keeps or lacks its file name through pre-processing, so the
      classifier's first verdict does not change. */
  lemma PreProcessKeepsNamePresence(t: Track, last: Track, cfg: Config, stat: string -> FileInfo)
    ensures Error(PreProcessTrack(t, last, cfg, stat)) == Some(EmptyFilename) <==> Error(t) == Some(EmptyFilename)
  {
  }

  /** The first loop of `main` from a given predecessor: each track is
      pre-processed against the record before it, and that record, as
      pre-processed, becomes the next predecessor whether or not it was skipped. */
  function FirstPassFrom(ts: seq<Track>, last: Track, cfg: Config, stat: string -> FileInfo): (r: seq<Track>)
    ensures |r| == |ts|
    decreases |ts|
  {
    if ts == [] then []
    else
      var t := PreProcessTrack(ts[0], last, cfg, stat);
      [t] + FirstPassFrom(ts[1..], t, cfg, stat)
  }

  /** The first loop of `main`, starting from the empty record. */
  function FirstPass(ts: seq<Track>, cfg: Config, stat: string -> FileInfo): (r: seq<Track>)
    ensures |r| == |ts|
  {
    FirstPassFrom(ts, EmptyTrack, cfg, stat)
  }

  /** Each result is its row pre-processed against the previous result, and
      the first against the given predecessor. */
  lemma {:induction false} FirstPassFromIndex(ts: seq<Track>, last: Track, cfg: Config, stat: string -> FileInfo, i: nat)
    requires i < |ts|
    ensures FirstPassFrom(ts, last, cfg, stat)[i] ==
      PreProcessTrack(ts[i], if i == 0 then last else FirstPassFrom(ts, last, cfg, stat)[i - 1], cfg, stat)
    decreases i
  {
    if i > 0 {
      var t := PreProcessTrack(ts[0], last, cfg, stat);
      FirstPassFromIndex(ts[1..], t, cfg, stat, i - 1);
      if i > 1 {
        assert FirstPassFrom(ts, last, cfg, stat)[i - 1] == FirstPassFrom(ts[1..], t, cfg, stat)[i - 2];
      }
    }
  }

  /** The first loop leaves a row without a file name as it is, and gives
      every other row a non-empty name, records the row's own name as the
      original and keeps its title. */
  lemma FirstPassRow(ts: seq<Track>, last: Track, cfg: Config, stat: string -> FileInfo, i: nat)
    requires i < |ts|
    ensures var r := FirstPassFrom(ts, last, cfg, stat)[i];
      && (ts[i].filename == "" ==> r == ts[i])
      && (ts[i].filename != "" ==>
            r.filename != "" && r.originalFilename == ts[i].filename && r.title == ts[i].title)
  {
    FirstPassFromIndex(ts, last, cfg, stat, i);
  }

  /** The predecessor of every track is the entry just before it in the
      list, starting from the empty record; a row skipped for its empty file
      name is passed on unchanged as the next predecessor. */
  lemma FirstPassIndex(ts: seq<Track>, cfg: Config, stat: string -> FileInfo, i: nat)
    requires i < |ts|
    ensures i == 0 ==> FirstPass(ts, cfg, stat)[0] == PreProcessTrack(ts[0], EmptyTrack, cfg, stat)
    ensures i > 0 ==> FirstPass(ts, cfg, stat)[i] == PreProcessTrack(ts[i], FirstPass(ts, cfg, stat)[i - 1], cfg, stat)
    ensures i > 0 && ts[i - 1].filename == "" ==>
      FirstPass(ts, cfg, stat)[i] == PreProcessTrack(ts[i], ts[i - 1], cfg, stat)
  {
    FirstPassFromIndex(ts, EmptyTrack, cfg, stat, i);
    if i > 0 {
      FirstPassFromIndex(ts, EmptyTrack, cfg, stat, i - 1);
    }
  }

  /** As written, the resolver fills the year (and the number) of a row
      marked to be skipped, so after the first pass the classifier no longer
      recognises the row as a placeholder and accepts it. */
  lemma SkipRowValidAfterPreProcess(t: Track, last: Track, cfg: Config, stat: string -> FileInfo)
    requires t.filename != "" && t.title in SkipWords && OtherFieldsEmpty(t) && !t.processed
    ensures Error(t) == Some(MarkedToSkip)
    ensures IsValid(PreProcessTrack(t, last, cfg, stat))
  {
    var r := PreProcessTrack(t, last, cfg, stat);
    assert r.year != "";
  }

  /** As written, a row skipped for its empty file name still becomes the
      predecessor: the track after a blank row starts again at the
      configured first number, whatever came before the blank row. */
  lemma FirstPassBlankRowRestartsNumbering(ts: seq<Track>, cfg: Config, stat: string -> FileInfo, i: nat)
    requires 0 < i < |ts|
    requires ts[i - 1].filename == "" && ts[i - 1].track == "" && ts[i - 1].discNumber == ""
    requires ts[i].filename != "" && ts[i].title != "" && ts[i].track == "" && ts[i].discNumber == ""
    ensures FirstPass(ts, cfg, stat)[i].track == cfg.trackNo
  {
    FirstPassIndex(ts, cfg, stat, i);
    assert Atoi(ts[i - 1].track) == IntSyntax;
  }

  /** The first pass as intended: a row the classifier rejects is left as it
      is and does not become the next row's predecessor, so the predecessor
      of each resolved row is the nearest earlier row that was accepted. */
  function FirstPassIntendedFrom(ts: seq<Track>, last: Track, cfg: Config, stat: string -> FileInfo): (r: seq<Track>)
    ensures |r| == |ts|
    ensures forall i :: 0 <= i < |ts| && !IsValid(ts[i]) ==> r[i] == ts[i]
    decreases |ts|
  {
    if ts == [] then []
    else [Resolved(ts[0], last, cfg, stat)] + FirstPassIntendedFrom(ts[1..], Carried(ts[0], last, cfg, stat), cfg, stat)
  }

  /** A row of the intended first pass: pre-processed when accepted, kept otherwise. */
  function Resolved(t: Track, last: Track, cfg: Config, stat: string -> FileInfo): (r: Track)
    ensures !IsValid(t) ==> r == t
  {
    if IsValid(t) then PreProcessTrack(t, last, cfg, stat) else t
  }

  /** The predecessor after a row of the intended first pass: the row itself
      when accepted, the previous predecessor otherwise. */
  function Carried(t: Track, last: Track, cfg: Config, stat: string -> FileInfo): (r: Track)
    ensures !IsValid(t) ==> r == last
  {
    if IsValid(t) then PreProcessTrack(t, last, cfg, stat) else last
  }

  /** The intended first pass from the empty record: rows marked to be
      skipped stay marked. */
  function FirstPassIntended(ts: seq<Track>, cfg: Config, stat: string -> FileInfo): (r: seq<Track>)
    ensures |r| == |ts|
    ensures forall i :: 0 <= i < |ts| && Error(ts[i]) == Some(MarkedToSkip) ==> Error(r[i]) == Some(MarkedToSkip)
  {
    FirstPassIntendedFrom(ts, EmptyTrack, cfg, stat)
  }

  /** A rejected row takes no part in the intended cascade: removing it
      leaves every other result as it was. */
  lemma {:induction false} FirstPassIntendedDropsRejected(ts: seq<Track>, last: Track, cfg: Config, stat: string -> FileInfo, i: nat)
    requires i < |ts| && !IsValid(ts[i])
    ensures var r := FirstPassIntendedFrom(ts, last, cfg, stat);
      FirstPassIntendedFrom(ts[..i] + ts[i + 1..], last, cfg, stat) == r[..i] + r[i + 1..]
    decreases i
  {
    var u := ts[..i] + ts[i + 1..];
    if i == 0 {
      assert u == ts[1..];
    } else {
      var head := Resolved(ts[0], last, cfg, stat);
      var next := Carried(ts[0], last, cfg, stat);
      var tail := FirstPassIntendedFrom(ts[1..], next, cfg, stat);
      DropAfterHead(ts, i);
      FirstPassIntendedDropsRejected(ts[1..], next, cfg, stat, i - 1);
      DropAfterHead([head] + tail, i);
    }
  }

  /** Removing element `i > 0` keeps the head and removes element `i - 1` of the tail. */
  lemma DropAfterHead(s: seq<Track>, i: nat)
    requires 0 < i < |s|
    ensures s[..i] + s[i + 1..] == [s[0]] + (s[1..][..i - 1] + s[1..][i..])
  {
  }

  // ---------------------------------------------------------------------------
  // Aggregates over the valid tracks
  // ---------------------------------------------------------------------------

  /** The loop shape of `totalDiscs`, `totalTracks` and `updatedDate`:
      starting from `start`, the largest `value` among the tracks that `counts`. */
  function MaxOver(ts: seq<Track>, counts: Track -> bool, value: Track -> int, start: int): (m: int)
    ensures m >= start
    ensures forall i :: 0 <= i < |ts| && counts(ts[i]) ==> value(ts[i]) <= m
    ensures m == start || exists i :: 0 <= i < |ts| && counts(ts[i]) && value(ts[i]) == m
    decreases |ts|
  {
    if ts == [] then start
    else
      var front := ts[..|ts| - 1];
      var m := MaxOver(front, counts, value, start);
      var t := ts[|ts| - 1];
      assert forall i :: 0 <= i < |front| ==> front[i] == ts[i];
      if counts(t) && value(t) > m then value(t) else m
  }

  /** The loop shape of `createdDate`: starting from `start`, the smallest
      `value` among the tracks that `counts`. */
  function MinOver(ts: seq<Track>, counts: Track -> bool, value: Track -> int, start: int): (m: int)
    ensures m <= start
    ensures forall i :: 0 <= i < |ts| && counts(ts[i]) ==> m <= value(ts[i])
    ensures m == start || exists i :: 0 <= i < |ts| && counts(ts[i]) && value(ts[i]) == m
    decreases |ts|
  {
    if ts == [] then start
    else
      var front := ts[..|ts| - 1];
      var m := MinOver(front, counts, value, start);
      var t := ts[|ts| - 1];
      assert forall i :: 0 <= i < |front| ==> front[i] == ts[i];
      if counts(t) && value(t) < m then value(t) else m
  }

  /** A track `totalDiscs` looks at: valid, with a disc number. */
  predicate DiscCounted(t: Track)
  {
    IsValid(t) && t.discNumber != ""
  }

  /** A track `totalTracks` looks at for `disc`: valid, on that disc
      (compared as text), with a track number. */
  predicate TrackCounted(t: Track, disc: string)
  {
    IsValid(t) && t.discNumber == disc && t.track != ""
  }

  /** `totalDiscs`: the largest disc number among the valid tracks, read
      with `Atoi` and its error dropped, or 0. */
  function TotalDiscs(ts: seq<Track>): (n: int)
    ensures 0 <= n <= MaxInt64
    ensures forall i :: 0 <= i < |ts| && DiscCounted(ts[i]) ==> AtoiValue(ts[i].discNumber) <= n
    ensures n == 0 || exists i :: 0 <= i < |ts| && DiscCounted(ts[i]) && AtoiValue(ts[i].discNumber) == n
  {
    MaxOver(ts, DiscCounted, (t: Track) => AtoiValue(t.discNumber), 0)
  }

  /** `totalTracks`: the largest track number among the valid tracks of
      disc `disc`, read with `Atoi` and its error dropped, or 0. */
  function TotalTracks(ts: seq<Track>, disc: string): (n: int)
    ensures 0 <= n <= MaxInt64
    ensures forall i :: 0 <= i < |ts| && TrackCounted(ts[i], disc) ==> AtoiValue(ts[i].track) <= n
    ensures n == 0 || exists i :: 0 <= i < |ts| && TrackCounted(ts[i], disc) && AtoiValue(ts[i].track) == n
  {
    MaxOver(ts, (t: Track) => TrackCounted(t, disc), (t: Track) => AtoiValue(t.track), 0)
  }

  /** The "n/total" text `setTags` writes for a disc or track number:
      `Sprintf("%s/%d", n, total)` when the flag is on, the number is set
      and the total is positive; the number alone otherwise. */
  function NumberWithTotal(n: string, total: int, on: bool): (r: string)
    ensures |r| >= |n| && r[..|n|] == n
    ensures |r| == |n| <==> !(on && n != "" && total > 0)
  {
    if on && n != "" && total > 0 then n + "/" + Itoa(total) else n
  }

  /** The total reads back from what follows the slash. */
  lemma NumberWithTotalReadsBack(n: string, total: int, on: bool)
    requires on && n != "" && 0 < total <= MaxInt64
    ensures var r := NumberWithTotal(n, total, on);
      |r| > |n| + 1 && r[|n|] == '/' && Atoi(r[|n| + 1..]) == IntOk(total)
  {
    var r := NumberWithTotal(n, total, on);
    assert r[|n| + 1..] == Itoa(total);
    ParseIntItoa(total);
  }

  /** The disc and track numbers `setTags` writes for track `t` of the list `ts`. */
  function TagNumbers(t: Track, ts: seq<Track>, cfg: Config): (r: (string, string))
    ensures |r.0| >= |t.discNumber| && r.0[..|t.discNumber|] == t.discNumber
    ensures |r.1| >= |t.track| && r.1[..|t.track|] == t.track
  {
    (NumberWithTotal(t.discNumber, TotalDiscs(ts), cfg.totalDiscs),
     NumberWithTotal(t.track, TotalTracks(ts, t.discNumber), cfg.totalTracks))
  }

  /** A valid numbered track of the list is labelled "n/total" with a
      total no smaller than its own number. */
  lemma TagNumbersCoverOwnNumber(t: Track, ts: seq<Track>, cfg: Config, j: nat)
    requires j < |ts| && ts[j] == t
    requires IsValid(t) && t.track != "" && AtoiValue(t.track) > 0 && cfg.totalTracks
    ensures var total := TotalTracks(ts, t.discNumber);
      total >= AtoiValue(t.track) && TagNumbers(t, ts, cfg).1 == t.track + "/" + Itoa(total)
  {
    assert TrackCounted(ts[j], t.discNumber);
  }

  /** The positions of the entries `counts` accepts. */
  function Positions(ts: seq<Track>, counts: Track -> bool): set<nat>
  {
    set i: nat | i < |ts| && counts(ts[i])
  }

  /** The number of entries `counts` accepts, counted from the front. */
  function CountOver(ts: seq<Track>, counts: Track -> bool): (n: nat)
    ensures n <= |ts|
    ensures n == |ts| <==> forall i :: 0 <= i < |ts| ==> counts(ts[i])
    ensures n == 0 <==> forall i :: 0 <= i < |ts| ==> !counts(ts[i])
    decreases |ts|
  {
    if ts == [] then 0
    else
      var front := ts[..|ts| - 1];
      assert forall i :: 0 <= i < |front| ==> front[i] == ts[i];
      CountOver(front, counts) + if counts(ts[|ts| - 1]) then 1 else 0
  }

  /** The count is the number of positions whose entry counts. */
  lemma {:induction false} CountOverPositions(ts: seq<Track>, counts: Track -> bool)
    ensures CountOver(ts, counts) == |Positions(ts, counts)|
    decreases |ts|
  {
    if ts != [] {
      CountOverPositions(ts[..|ts| - 1], counts);
      PositionsSnoc(ts, counts);
    }
  }

  /** The positions of a list are those of all but its last entry, plus the
      last position when that entry counts. */
  lemma PositionsSnoc(ts: seq<Track>, counts: Track -> bool)
    requires ts != []
    ensures var front := ts[..|ts| - 1];
      && (forall i :: 0 <= i < |front| ==> front[i] == ts[i])
      && Positions(ts, counts) == Positions(front, counts) + (if counts(ts[|ts| - 1]) then {|ts| - 1} else {})
      && |ts| - 1 !in Positions(front, counts)
  {
    var front := ts[..|ts| - 1];
    assert forall i :: 0 <= i < |front| ==> front[i] == ts[i];
  }

  /** Counting is additive over a split of the list. */
  lemma {:induction false} CountOverAppend(a: seq<Track>, b: seq<Track>, counts: Track -> bool)
    ensures CountOver(a + b, counts) == CountOver(a, counts) + CountOver(b, counts)
    decreases |b|
  {
    if b == [] {
      assert a + b == a;
    } else {
      var ab := a + b;
      var bf := b[..|b| - 1];
      assert ab[..|ab| - 1] == a + bf;
      assert ab[|ab| - 1] == b[|b| - 1];
      CountOverAppend(a, bf, counts);
    }
  }

  /** `validTracks`: how many tracks the classifier accepts. */
  function ValidTracks(ts: seq<Track>): (n: nat)
    ensures n == |Positions(ts, IsValid)|
    ensures n <= |ts|
    ensures n == |ts| <==> forall i :: 0 <= i < |ts| ==> IsValid(ts[i])
    ensures n == 0 <==> forall i :: 0 <= i < |ts| ==> !IsValid(ts[i])
  {
    CountOverPositions(ts, IsValid);
    CountOver(ts, IsValid)
  }

  /** The count of a concatenation is the sum of the counts. */
  lemma ValidTracksAppend(a: seq<Track>, b: seq<Track>)
    ensures ValidTracks(a + b) == ValidTracks(a) + ValidTracks(b)
  {
    CountOverAppend(a, b, IsValid);
  }

  /** 2099-12-31T23:59:59.999999999Z, in nanoseconds since the Unix epoch:
      the start value of `createdDate`. */
  const LatestDate: int := 4102444799999999999

  /** Go's zero `time.Time`, 0001-01-01T00:00:00Z, in nanoseconds since the
      Unix epoch: the start value of `updatedDate`. */
  const ZeroTime: int := -62135596800000000000

  /** `createdDate`: the earliest modification time of a valid track, but
      never later than the end of 2099. */
  function CreatedDate(ts: seq<Track>): (d: int)
    ensures d <= LatestDate
    ensures forall i :: 0 <= i < |ts| && IsValid(ts[i]) ==> d <= ts[i].modTime
    ensures d == LatestDate || exists i :: 0 <= i < |ts| && IsValid(ts[i]) && ts[i].modTime == d
  {
    MinOver(ts, IsValid, (t: Track) => t.modTime, LatestDate)
  }

  /** `updatedDate`: the latest modification time of a valid track, but
      never earlier than Go's zero time. */
  function UpdatedDate(ts: seq<Track>): (d: int)
    ensures d >= ZeroTime
    ensures forall i :: 0 <= i < |ts| && IsValid(ts[i]) ==> ts[i].modTime <= d
    ensures d == ZeroTime || exists i :: 0 <= i < |ts| && IsValid(ts[i]) && ts[i].modTime == d
  {
    MaxOver(ts, IsValid, (t: Track) => t.modTime, ZeroTime)
  }

  /** Without a valid track the feed dates are the two start values. */
  lemma FeedDatesWithoutTracks(ts: seq<Track>)
    requires ValidTracks(ts) == 0
    ensures CreatedDate(ts) == LatestDate && UpdatedDate(ts) == ZeroTime
  {
  }

  /** With a valid track no earlier than Go's zero time, the updated date is
      the time of some valid track and no earlier than the created date. */
  lemma FeedDatesWithTrack(ts: seq<Track>, k: nat)
    requires k < |ts| && IsValid(ts[k]) && ZeroTime <= ts[k].modTime
    ensures exists i :: 0 <= i < |ts| && IsValid(ts[i]) && ts[i].modTime == UpdatedDate(ts)
    ensures CreatedDate(ts) <= UpdatedDate(ts)
  {
    assert CreatedDate(ts) <= ts[k].modTime <= UpdatedDate(ts);
  }
}
