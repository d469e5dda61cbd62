/** The `Track` record of track.go: fourteen text fields named by the tags of
    the input sheet, the bookkeeping fields the first pass fills in, the
    field registry behind `Fields`/`Get`/`Set`, the validity classifier
    `Error`/`IsValid`, the `Duration` formatter, `NormalizeFilename` and
    `SetCopyright`. */
module Tracks {

  import opened Wrappers
  import opened GoStrconv
  import opened GoStrings
  import Paths

  const MinMilliseconds: int := 1000
  const MinFileSize: int := 1024

  /** One row of the track list. The Go struct's text fields, in declaration
      order, followed by the fields without a column tag. */
  datatype Track = Track(
    filename: string,
    albumArtist: string,
    albumTitle: string,
    artist: string,
    composer: string,
    copyright: string,
    description: string,
    discNumber: string,
    genre: string,
    track: string,
    subtitle: string,
    summary: string,
    title: string,
    year: string,
    originalFilename: string,
    durationMs: int,
    fileSize: int,
    originalFileSize: int,
    originalModTime: int,
    modTime: int,
    processed: bool)

  /** The all-empty record `&Track{}`. */
  const EmptyTrack: Track :=
    Track("", "", "", "", "", "", "", "", "", "", "", "", "", "", "", 0, 0, 0, 0, 0, false)

  // ---------------------------------------------------------------------------
  // Field registry (the column tags, made explicit)
  // ---------------------------------------------------------------------------

  /** The fourteen fields that carry a column tag. */
  datatype Field =
    | Filename | AlbumArtist | AlbumTitle | Artist | Composer | Copyright
    | Description | DiscNumber | Genre | TrackNo | Subtitle | Summary | Title | Year

  /** The tagged fields in struct declaration order; this is also the order
      in which the renamer visits them. */
  const Registry: seq<Field> := [
    Filename, AlbumArtist, AlbumTitle, Artist, Composer, Copyright,
    Description, DiscNumber, Genre, TrackNo, Subtitle, Summary, Title, Year]

  /** The column name in the field's tag (the part before `,omitempty`). */
  function ColumnName(f: Field): string
  {
    match f
    case Filename => "filename"
    case AlbumArtist => "album_artist"
    case AlbumTitle => "album_title"
    case Artist => "artist"
    case Composer => "composer"
    case Copyright => "copyright"
    case Description => "description"
    case DiscNumber => "disc_number"
    case Genre => "genre"
    case TrackNo => "track"
    case Subtitle => "subtitle"
    case Summary => "summary"
    case Title => "title"
    case Year => "year"
  }

  function GetField(t: Track, f: Field): string
  {
    match f
    case Filename => t.filename
    case AlbumArtist => t.albumArtist
    case AlbumTitle => t.albumTitle
    case Artist => t.artist
    case Composer => t.composer
    case Copyright => t.copyright
    case Description => t.description
    case DiscNumber => t.discNumber
    case Genre => t.genre
    case TrackNo => t.track
    case Subtitle => t.subtitle
    case Summary => t.summary
    case Title => t.title
    case Year => t.year
  }

  /** Stores `v` in field `f`; every other field, tagged or not, keeps its value. */
  function SetField(t: Track, f: Field, v: string): (r: Track)
    ensures GetField(r, f) == v
    ensures forall g :: g != f ==> GetField(r, g) == GetField(t, g)
    ensures r.originalFilename == t.originalFilename && r.durationMs == t.durationMs
    ensures r.fileSize == t.fileSize && r.originalFileSize == t.originalFileSize
    ensures r.modTime == t.modTime && r.originalModTime == t.originalModTime
    ensures r.processed == t.processed
  {
    match f
    case Filename => t.(filename := v)
    case AlbumArtist => t.(albumArtist := v)
    case AlbumTitle => t.(albumTitle := v)
    case Artist => t.(artist := v)
    case Composer => t.(composer := v)
    case Copyright => t.(copyright := v)
    case Description => t.(description := v)
    case DiscNumber => t.(discNumber := v)
    case Genre => t.(genre := v)
    case TrackNo => t.(track := v)
    case Subtitle => t.(subtitle := v)
    case Summary => t.(summary := v)
    case Title => t.(title := v)
    case Year => t.(year := v)
  }

  /** The position of a field in the registry. */
  function Position(f: Field): (i: nat)
    ensures i < |Registry| && Registry[i] == f
  {
    match f
    case Filename => 0
    case AlbumArtist => 1
    case AlbumTitle => 2
    case Artist => 3
    case Composer => 4
    case Copyright => 5
    case Description => 6
    case DiscNumber => 7
    case Genre => 8
    case TrackNo => 9
    case Subtitle => 10
    case Summary => 11
    case Title => 12
    case Year => 13
  }

  /** The field a column name belongs to, compared exactly. */
  function FieldNamed(name: string): Option<Field>
  {
    if name == "filename" then Some(Filename)
    else if name == "album_artist" then Some(AlbumArtist)
    else if name == "album_title" then Some(AlbumTitle)
    else if name == "artist" then Some(Artist)
    else if name == "composer" then Some(Composer)
    else if name == "copyright" then Some(Copyright)
    else if name == "description" then Some(Description)
    else if name == "disc_number" then Some(DiscNumber)
    else if name == "genre" then Some(Genre)
    else if name == "track" then Some(TrackNo)
    else if name == "subtitle" then Some(Subtitle)
    else if name == "summary" then Some(Summary)
    else if name == "title" then Some(Title)
    else if name == "year" then Some(Year)
    else None
  }

  /** Each column name leads back to its own field, so the names are
      pairwise distinct; they are non-empty and lower case. */
  lemma ColumnNameFacts(f: Field)
    ensures FieldNamed(ColumnName(f)) == Some(f)
    ensures IsLowerName(ColumnName(f)) && ColumnName(f) != ""
  {
    ColumnNameRoundTrip(f);
    ColumnNameLower(f);
  }

  lemma ColumnNameRoundTrip(f: Field)
    ensures FieldNamed(ColumnName(f)) == Some(f)
  {
    match f
    case Filename => {}
    case AlbumArtist => {}
    case AlbumTitle => {}
    case Artist => {}
    case Composer => {}
    case Copyright => {}
    case Description => {}
    case DiscNumber => {}
    case Genre => {}
    case TrackNo => {}
    case Subtitle => {}
    case Summary => {}
    case Title => {}
    case Year => {}
  }

  lemma ColumnNameLower(f: Field)
    ensures forall i :: 0 <= i < |ColumnName(f)| ==> 'a' <= ColumnName(f)[i] <= 'z' || ColumnName(f)[i] == '_'
    ensures ColumnName(f) != ""
  {
    match f
    case Filename => {}
    case AlbumArtist => {}
    case AlbumTitle => {}
    case Artist => {}
    case Composer => {}
    case Copyright => {}
    case Description => {}
    case DiscNumber => {}
    case Genre => {}
    case TrackNo => {}
    case Subtitle => {}
    case Summary => {}
    case Title => {}
    case Year => {}
  }

  lemma ColumnNameInjective(f: Field, g: Field)
    requires ColumnName(f) == ColumnName(g)
    ensures f == g
  {
    ColumnNameFacts(f);
    ColumnNameFacts(g);
  }

  /** The loop of `Get`/`Set` over the tagged fields: the first one, from
      position `i` on, whose column name equals `name` up to case. */
  function LookupFrom(name: string, i: nat): (r: Option<Field>)
    requires i <= |Registry|
    ensures r.Some? ==> EqualFold(ColumnName(r.value), name)
    ensures r.None? ==> forall j :: i <= j < |Registry| ==> !EqualFold(ColumnName(Registry[j]), name)
    decreases |Registry| - i
  {
    if i == |Registry| then None
    else if EqualFold(ColumnName(Registry[i]), name) then Some(Registry[i])
    else LookupFrom(name, i + 1)
  }

  /** The tagged field whose column name equals `name` up to case, if any. */
  function Lookup(name: string): (r: Option<Field>)
    ensures r.Some? ==> EqualFold(ColumnName(r.value), name)
    ensures forall f: Field :: EqualFold(ColumnName(f), name) ==> r == Some(f)
  {
    var r := LookupFrom(name, 0);
    forall f: Field | EqualFold(ColumnName(f), name)
      ensures r == Some(f)
    {
      assert Registry[Position(f)] == f;
      var g := r.value;
      ColumnNameFacts(f);
      ColumnNameFacts(g);
      EqualFoldLowerNames(ColumnName(g), ColumnName(f), name);
      ColumnNameInjective(g, f);
    }
    r
  }

  /** `Fields`: the map from each column name to the field's text. */
  function Fields(t: Track): (m: map<string, string>)
    ensures forall f: Field :: ColumnName(f) in m && m[ColumnName(f)] == GetField(t, f)
    ensures forall k :: k in m ==> FieldNamed(k).Some?
  {
    forall f: Field
      ensures ColumnName(f) in FieldMap(t) && FieldMap(t)[ColumnName(f)] == GetField(t, f)
    {
      FieldMapEntry(t, f);
    }
    FieldMap(t)
  }

  function FieldMap(t: Track): map<string, string>
  {
    map[
      "filename" := t.filename, "album_artist" := t.albumArtist,
      "album_title" := t.albumTitle, "artist" := t.artist, "composer" := t.composer,
      "copyright" := t.copyright, "description" := t.description,
      "disc_number" := t.discNumber, "genre" := t.genre, "track" := t.track,
      "subtitle" := t.subtitle, "summary" := t.summary, "title" := t.title,
      "year" := t.year]
  }

  lemma FieldMapEntry(t: Track, f: Field)
    ensures ColumnName(f) in FieldMap(t) && FieldMap(t)[ColumnName(f)] == GetField(t, f)
  {
    match f
    case Filename => {}
    case AlbumArtist => {}
    case AlbumTitle => {}
    case Artist => {}
    case Composer => {}
    case Copyright => {}
    case Description => {}
    case DiscNumber => {}
    case Genre => {}
    case TrackNo => {}
    case Subtitle => {}
    case Summary => {}
    case Title => {}
    case Year => {}
  }

  /** `Get`: the field named `name` (case-insensitively), or "" for an unknown name. */
  function Get(t: Track, name: string): (v: string)
    ensures forall f: Field :: EqualFold(ColumnName(f), name) ==> v == GetField(t, f)
    ensures (forall f: Field :: !EqualFold(ColumnName(f), name)) ==> v == ""
  {
    match Lookup(name)
    case Some(f) => GetField(t, f)
    case None => ""
  }

  /** `Set`: stores the trimmed value in the field named `name` and answers
      true, or answers false and leaves the track as it is. */
  function Set(t: Track, name: string, v: string): (r: (Track, bool))
    ensures r.1 <==> exists f: Field :: EqualFold(ColumnName(f), name)
    ensures !r.1 ==> r.0 == t
    ensures forall f: Field :: EqualFold(ColumnName(f), name) ==>
      GetField(r.0, f) == TrimSpace(v) &&
      forall g: Field :: g != f ==> GetField(r.0, g) == GetField(t, g)
    ensures r.0.originalFilename == t.originalFilename && r.0.durationMs == t.durationMs
    ensures r.0.fileSize == t.fileSize && r.0.originalFileSize == t.originalFileSize
    ensures r.0.modTime == t.modTime && r.0.originalModTime == t.originalModTime
    ensures r.0.processed == t.processed
  {
    match Lookup(name)
    case Some(f) => (SetField(t, f, TrimSpace(v)), true)
    case None => (t, false)
  }

  /** Reading back a field just set by name yields the trimmed value. */
  lemma SetThenGet(t: Track, name: string, v: string)
    requires exists f: Field :: EqualFold(ColumnName(f), name)
    ensures Set(t, name, v).1
    ensures Get(Set(t, name, v).0, name) == TrimSpace(v)
  {
  }

  // ---------------------------------------------------------------------------
  // Validity
  // ---------------------------------------------------------------------------

  /** The anchored alternatives of `skipRegex`, matched case-sensitively
      against the whole title. */
  const SkipWords: set<string> := {
    "avoid", "bypass", "circumvent", "dodge", "duck", "forget", "hide", "ignore",
    "neglect", "no", "omit", "overlook", "pass", "quit", "reject", "sidestep",
    "shirk", "skirt", "skip", "x"}

  /** Why `Error` rejects a track; each stands for one message of track.go. */
  datatype TrackError =
    | EmptyFilename
    | MarkedToSkip
    | Unreadable
    | TooShort(ms: int)
    | TooSmall(size: int)

  /** The eleven fields whose emptiness, together with a skip word as title,
      marks a row as a placeholder. Subtitle is not among them. */
  predicate OtherFieldsEmpty(t: Track)
  {
    t.artist == "" && t.description == "" && t.track == "" && t.discNumber == ""
    && t.albumTitle == "" && t.genre == "" && t.albumArtist == "" && t.summary == ""
    && t.copyright == "" && t.composer == "" && t.year == ""
  }

  /** `Error`: the first failing check, in source order, or None. */
  function Error(t: Track): (e: Option<TrackError>)
    ensures e == Some(EmptyFilename) <==> t.filename == ""
    ensures t.filename != "" && !t.processed && !(t.title in SkipWords && OtherFieldsEmpty(t)) ==> e == None
  {
    if t.filename == "" then Some(EmptyFilename)
    else if t.title != "" && t.title in SkipWords && OtherFieldsEmpty(t) then Some(MarkedToSkip)
    else if !t.processed then None
    else if t.modTime == 0 then Some(Unreadable)
    else if t.durationMs > 0 && t.durationMs < MinMilliseconds then Some(TooShort(t.durationMs))
    else if t.fileSize < MinFileSize then Some(TooSmall(t.fileSize))
    else None
  }

  /** `IsValid`: the track is processed and exported. */
  predicate IsValid(t: Track)
  {
    Error(t).None?
  }

  /** The checks run in order and the first that fails decides: each outcome
      holds exactly when its own condition holds and all earlier ones pass. */
  lemma ErrorOrder(t: Track)
    ensures Error(t) == Some(MarkedToSkip) <==>
      t.filename != "" && t.title in SkipWords && OtherFieldsEmpty(t)
    ensures Error(t) == Some(Unreadable) <==>
      t.filename != "" && !(t.title in SkipWords && OtherFieldsEmpty(t))
      && t.processed && t.modTime == 0
    ensures (exists ms :: Error(t) == Some(TooShort(ms))) <==>
      t.filename != "" && !(t.title in SkipWords && OtherFieldsEmpty(t))
      && t.processed && t.modTime != 0 && 0 < t.durationMs < MinMilliseconds
    ensures (exists n :: Error(t) == Some(TooSmall(n))) <==>
      t.filename != "" && !(t.title in SkipWords && OtherFieldsEmpty(t))
      && t.processed && t.modTime != 0 && !(0 < t.durationMs < MinMilliseconds)
      && t.fileSize < MinFileSize
    ensures IsValid(t) <==>
      t.filename != "" && !(t.title in SkipWords && OtherFieldsEmpty(t))
      && (!t.processed
          || (t.modTime != 0 && !(0 < t.durationMs < MinMilliseconds) && t.fileSize >= MinFileSize))
  {
    assert "" !in SkipWords;
  }

  /** A skip word as title is a literal title as soon as any one of the
      eleven other fields is set; the subtitle never takes part. */
  lemma SkipNeedsAllElevenEmpty(t: Track, v: string)
    requires t.filename != "" && t.title in SkipWords && !t.processed
    ensures !IsValid(t) <==> OtherFieldsEmpty(t)
    ensures Error(t.(subtitle := v)) == Error(t)
    ensures v != "" ==> IsValid(t.(artist := v)) && IsValid(t.(year := v)) && IsValid(t.(composer := v))
  {
  }

  /** The duration boundary: 0 ms (not measured) and 1000 ms pass, anything
      strictly between is too short. */
  lemma DurationBoundary(t: Track)
    requires t.filename != "" && t.title !in SkipWords && t.processed
    requires t.modTime != 0 && t.fileSize >= MinFileSize
    ensures t.durationMs == 0 ==> IsValid(t)
    ensures t.durationMs == MinMilliseconds ==> IsValid(t)
    ensures 0 < t.durationMs < MinMilliseconds ==> Error(t) == Some(TooShort(t.durationMs))
  {
  }

  // ---------------------------------------------------------------------------
  // Duration
  // ---------------------------------------------------------------------------

  /** Go's `/` on integers: the quotient truncated toward zero. */
  function GoQuot(a: int, b: int): int
    requires b > 0
  {
    if a >= 0 then a / b else -((-a) / b)
  }

  /** Go's `%` on integers: the remainder takes the sign of the dividend. */
  function GoRem(a: int, b: int): (r: int)
    requires b > 0
    ensures a == GoQuot(a, b) * b + r
  {
    if a >= 0 then a % b else -((-a) % b)
  }

  /** Hours, minutes and seconds exactly as `Duration` computes them before
      formatting: split with Go's truncating `/` and `%`, a leftover
      millisecond rounds the seconds up, and a full minute or hour carries. */
  function DurationParts(ms: int): (hms: (int, int, int))
    ensures ms >= 0 ==> 0 <= hms.1 <= 59 && 0 <= hms.2 <= 59 && hms.0 >= 0
    ensures ms >= 0 ==> hms.0 * 3600 + hms.1 * 60 + hms.2 == (ms + 999) / 1000
  {
    var millis := GoRem(ms, 1000);
    var secs := GoQuot(ms, 1000);
    var s0 := GoRem(secs, 60);
    var mins := GoQuot(secs, 60);
    var m0 := GoRem(mins, 60);
    var h0 := GoQuot(mins, 60);
    var s1 := if millis > 0 then s0 + 1 else s0;
    var (m1, s2) := if s1 > 59 then (m0 + 1, 0) else (m0, s1);
    var (h2, m2) := if m1 > 59 then (h0 + 1, 0) else (h0, m1);
    (h2, m2, s2)
  }

  /** Go's `%02d`: at least two characters, zero-padded after any sign. */
  function Pad2(n: int): (r: string)
    ensures |r| >= 2
    ensures 0 <= n < 100 ==> |r| == 2 && AllDigits(r)
  {
    if 0 <= n < 10 then "0" + Itoa(n)
    else if 10 <= n < 100 then
      assert NatDigits(n) == NatDigits(n / 10) + [DigitChar(n % 10)];
      Itoa(n)
    else Itoa(n)
  }

  /** `Duration`: `durationMask` ("%02d:%02d:%02d") applied to the parts. */
  function Duration(t: Track): (r: string)
    ensures t.durationMs >= 0 ==> |r| >= 8 && r[|r| - 3] == ':' && r[|r| - 6] == ':'
  {
    var hms := DurationParts(t.durationMs);
    Pad2(hms.0) + ":" + Pad2(hms.1) + ":" + Pad2(hms.2)
  }

  /** Every two-digit field of the duration reads back as its number. */
  lemma Pad2RoundTrip(n: int)
    requires 0 <= n < 100
    ensures ParseInt(Pad2(n)) == IntOk(n)
  {
    ParseIntItoa(n);
    if n < 10 {
      assert ScanDigits(Pad2(n), 0) == ScanDigits(Pad2(n)[1..], 0);
      assert Pad2(n)[1..] == Itoa(n);
    }
  }

  /** The rendered duration of a non-negative length splits into hours,
      minutes and seconds that read back as whole numbers with
      hours*3600 + minutes*60 + seconds == ceil(ms / 1000). */
  lemma DurationReadsBack(t: Track)
    requires 0 <= t.durationMs <= 359999000
    ensures var r := Duration(t);
      |r| == 8 && r[2] == ':' && r[5] == ':'
      && exists h, m, s ::
        ParseInt(r[..2]) == IntOk(h) && ParseInt(r[3..5]) == IntOk(m) && ParseInt(r[6..]) == IntOk(s)
        && 0 <= m < 60 && 0 <= s < 60
        && h * 3600 + m * 60 + s == (t.durationMs + 999) / 1000
  {
    var hms := DurationParts(t.durationMs);
    assert hms.0 < 100;
    Pad2RoundTrip(hms.0);
    Pad2RoundTrip(hms.1);
    Pad2RoundTrip(hms.2);
    ClockReadsBack(Pad2(hms.0), Pad2(hms.1), Pad2(hms.2), hms.0, hms.1, hms.2, (t.durationMs + 999) / 1000);
  }

  /** Three two-character fields that read back as hours, minutes and
      seconds of a total still read back once joined by colons. */
  lemma ClockReadsBack(a: string, b: string, c: string, h: int, m: int, s: int, total: int)
    requires |a| == 2 && |b| == 2 && |c| == 2
    requires ParseInt(a) == IntOk(h) && ParseInt(b) == IntOk(m) && ParseInt(c) == IntOk(s)
    requires 0 <= m < 60 && 0 <= s < 60 && h * 3600 + m * 60 + s == total
    ensures var r := a + ":" + b + ":" + c;
      |r| == 8 && r[2] == ':' && r[5] == ':'
      && exists h, m, s ::
        ParseInt(r[..2]) == IntOk(h) && ParseInt(r[3..5]) == IntOk(m) && ParseInt(r[6..]) == IntOk(s)
        && 0 <= m < 60 && 0 <= s < 60
        && h * 3600 + m * 60 + s == total
  {
    ClockFields(a, b, c);
  }

  /** Three two-character fields joined by colons sit at fixed places. */
  lemma ClockFields(a: string, b: string, c: string)
    requires |a| == 2 && |b| == 2 && |c| == 2
    ensures var r := a + ":" + b + ":" + c;
      |r| == 8 && r[2] == ':' && r[5] == ':' && r[..2] == a && r[3..5] == b && r[6..] == c
  {
  }

  // ---------------------------------------------------------------------------
  // Filename normalisation and copyright
  // ---------------------------------------------------------------------------

  /** `NormalizeFilename` on the record: once an original name is recorded
      nothing changes; otherwise the current name is kept as the original
      and replaced by its normalised form. */
  function NormalizeTrackFilename(t: Track): (r: Track)
    ensures t.originalFilename != "" ==> r == t
    ensures t.originalFilename == "" ==>
      r.originalFilename == t.filename && Paths.NoBadChars(r.filename)
      && |r.filename| <= |t.filename|
      && r.(filename := t.filename, originalFilename := "") == t
    ensures Paths.NoBadChars(t.filename) ==> r.filename == t.filename
  {
    Paths.NormalizeFilenameValid(t.filename);
    assert Paths.NoBadChars(t.filename) ==> Paths.NormalizeFilename(t.filename) == t.filename by {
      if Paths.NoBadChars(t.filename) {
        Paths.NormalizeFilenameClean(t.filename);
      }
    }
    if t.originalFilename != "" then t
    else t.(originalFilename := t.filename, filename := Paths.NormalizeFilename(t.filename))
  }

  /** Normalising the record a second time changes nothing. */
  lemma NormalizeTrackFilenameIdempotent(t: Track)
    ensures NormalizeTrackFilename(NormalizeTrackFilename(t)) == NormalizeTrackFilename(t)
  {
    Paths.NormalizeFilenameIdempotent(t.filename);
  }

  /** `SetCopyright`: an explicit copyright wins; otherwise the mask is
      applied to the year and the track's artist. The mask, a `Sprintf`
      format in the source, is passed in as the function it denotes. */
  function SetCopyright(t: Track, copyright: string, mask: (int, string) -> string, year: int): (r: Track)
    ensures copyright != "" ==> r.copyright == copyright
    ensures copyright == "" ==> r.copyright == mask(year, t.artist)
    ensures r.(copyright := t.copyright) == t
  {
    if copyright != "" then t.(copyright := copyright)
    else t.(copyright := mask(year, t.artist))
  }
}
