/**
 * The older two-field record reader `utils::info_reader`: a record `{location, about}` that
 * rejects any other field, the cleaning and validation done when it is read, and the looser
 * schema check `validate_json_schema`. It reads `<dir>/info.json` rather than the
 * `.dir_info` record of the current reader.
 */
module LegacyInfoReader {
  import opened Wrappers
  import opened Text
  import opened Paths
  import opened Json
  import opened Fs
  import InfoReader

  datatype LegacyInfo = LegacyInfo(location: string, about: string)

  /** The legacy `InfoError`; a parse failure's serde message is not modelled. */
  datatype LegacyError =
    | NotFound
    | ReadError(io: IoErr)
    | ParseError
    | ValidationError(msg: string)

  const LOCATION_EMPTY := "Location cannot be empty"
  const ABOUT_EMPTY := "About cannot be empty"
  const LOCATION_NOT_STRING := "location must be a string"
  const ABOUT_NOT_STRING := "about must be a string"
  const MISSING_FIELDS := "Missing required fields: 'location' and 'about'"

  /** The document of a legacy record. */
  function ToJson(i: LegacyInfo): (v: Value)
    ensures v.Obj? && v.fields.Keys == {"location", "about"}
  {
    Obj(map["location" := Str(i.location), "about" := Str(i.about)])
  }

  /** serde with `deny_unknown_fields`: exactly the two string fields. */
  function FromJson(v: Value): (r: Option<LegacyInfo>)
    ensures r.Some? <==> v.Obj? && v.fields.Keys == {"location", "about"}
                         && v.fields["location"].Str? && v.fields["about"].Str?
    ensures r.Some? ==> v == ToJson(r.value)
    ensures forall i :: v == ToJson(i) ==> r == Some(i)
  {
    if v.Obj? && v.fields.Keys == {"location", "about"} && v.fields["location"].Str? && v.fields["about"].Str?
    then
      var r := LegacyInfo(v.fields["location"].s, v.fields["about"].s);
      assert v.fields == ToJson(r).fields;
      Some(r)
    else None
  }

  /** `Info::validate`: both fields must hold something other than white space. */
  function Validate(i: LegacyInfo): (r: Result<(), LegacyError>)
    ensures r.Ok? <==> Trim(i.location) != [] && Trim(i.about) != []
    ensures r.Err? ==> r.error == ValidationError(if Trim(i.location) == [] then LOCATION_EMPTY else ABOUT_EMPTY)
  {
    if Trim(i.location) == [] then Err(ValidationError(LOCATION_EMPTY))
    else if Trim(i.about) == [] then Err(ValidationError(ABOUT_EMPTY))
    else Ok(())
  }

  /** The cleaning step: `about` loses enclosing quote marks and then white space; `location` is trimmed. */
  function Clean(i: LegacyInfo): (r: LegacyInfo)
    ensures IsTrimmed(r.location) && IsTrimmed(r.about)
    ensures |r.location| <= |i.location| && |r.about| <= |i.about|
  {
    TrimIsTrimmed(i.location);
    TrimIsTrimmed(TrimMatches(i.about, '"'));
    LegacyInfo(Trim(i.location), CleanAbout(i.about))
  }

  /** `about.trim_matches('"').trim()` */
  function CleanAbout(about: string): string {
    Trim(TrimMatches(about, '"'))
  }

  /** A cleaned record passes validation exactly when both cleaned fields are non-empty. */
  lemma ValidateCleaned(i: LegacyInfo)
    ensures Validate(Clean(i)).Ok? <==> Clean(i).location != [] && Clean(i).about != []
    ensures IsTrimmed(Clean(i).location) && IsTrimmed(Clean(i).about)
  {
    TrimIdempotent(i.location);
    TrimIdempotent(TrimMatches(i.about, '"'));
    TrimIsTrimmed(i.location);
    TrimIsTrimmed(TrimMatches(i.about, '"'));
  }

  /** `read_validate_info(info_path)` of the legacy reader. */
  function ReadValidateInfo(w: World, infoPath: Path): (r: Result<LegacyInfo, LegacyError>)
    ensures !Exists(w, infoPath) <==> r == Err(LegacyError.NotFound)
    ensures r.Ok? <==> exists raw: LegacyInfo :: Read(w, infoPath) == Ok(Doc(ToJson(raw)))
                                    && Clean(raw).location != [] && Clean(raw).about != []
    ensures r.Ok? ==> IsTrimmed(r.value.location) && r.value.location != []
                      && IsTrimmed(r.value.about) && r.value.about != []
    ensures r.Ok? ==> exists raw: LegacyInfo :: Read(w, infoPath) == Ok(Doc(ToJson(raw)))
                                    && r.value == Clean(raw)
  {
    if !Exists(w, infoPath) then Err(LegacyError.NotFound)
    else match Read(w, infoPath)
      case Err(e) => Err(ReadError(e))
      case Ok(Doc(v)) =>
        (match FromJson(v)
         case None => Err(ParseError)
         case Some(raw) =>
           var i := Clean(raw);
           ValidateCleaned(raw);
           match Validate(i)
           case Err(e) => Err(e)
           case Ok(_) => Ok(i))
      case Ok(_) => Err(ParseError)
  }

  /** `validate_json_schema(json_str)`; `None` stands for text that is not JSON. */
  function ValidateJsonSchema(doc: Option<Value>): (r: Result<(), LegacyError>)
    ensures r.Ok? <==> doc.Some? && doc.value.Obj? && "location" in doc.value.fields && "about" in doc.value.fields
                       && doc.value.fields["location"].Str? && doc.value.fields["about"].Str?
    ensures doc.None? ==> r == Err(ParseError)
  {
    match doc
    case None => Err(ParseError)
    case Some(v) =>
      if !(v.Obj? && "location" in v.fields && "about" in v.fields) then Err(ValidationError(MISSING_FIELDS))
      else if !v.fields["location"].Str? then Err(ValidationError(LOCATION_NOT_STRING))
      else if !v.fields["about"].Str? then Err(ValidationError(ABOUT_NOT_STRING))
      else Ok(())
  }

  /** Every record the legacy reader accepts also passes the schema check. */
  lemma ReadablePassesSchema(w: World, infoPath: Path)
    requires ReadValidateInfo(w, infoPath).Ok?
    ensures Read(w, infoPath).Ok? && Read(w, infoPath).value.Doc?
    ensures ValidateJsonSchema(Some(Read(w, infoPath).value.doc)) == Ok(())
  {
  }

  /**
   * The schema check is looser than the reader: a document with a third field passes the
   * check, but the reader refuses it.
   */
  lemma SchemaAcceptsExtraFields()
    ensures var v := Obj(map["location" := Str("HOME"), "about" := Str("home"), "objects" := Obj(map[])]);
      ValidateJsonSchema(Some(v)) == Ok(()) && FromJson(v).None?
  {
    var v := Obj(map["location" := Str("HOME"), "about" := Str("home"), "objects" := Obj(map[])]);
    assert "objects" in v.fields.Keys;
  }

  /** A record written by the current reader never parses as a legacy record: it has `objects`. */
  lemma LegacyRejectsCurrent(i: InfoReader.Info)
    ensures FromJson(InfoReader.ToJson(i)).None?
  {
    assert "objects" in InfoReader.ToJson(i).fields.Keys;
  }

  /** A character that is neither white space nor a quote mark. */
  predicate PlainChar(c: char) {
    !IsWhitespace(c) && c != '"'
  }

  lemma QuotedWordSteps(c: char)
    requires PlainChar(c)
    ensures TrimStartMatches(['"', c, '"'], '"') == [c, '"']
    ensures TrimEndMatches([c, '"'], '"') == [c]
  {
    assert ['"', c, '"'][1..] == [c, '"'];
    assert [c, '"'][..1] == [c];
  }

  lemma PaddedQuotedWordMatches(c: char)
    ensures TrimStartMatches([' ', '"', c, '"', ' '], '"') == [' ', '"', c, '"', ' ']
    ensures TrimEndMatches([' ', '"', c, '"', ' '], '"') == [' ', '"', c, '"', ' ']
  {
  }

  lemma PaddedQuotedWordStart(c: char)
    ensures TrimStart([' ', '"', c, '"', ' ']) == ['"', c, '"', ' ']
  {
    assert IsWhitespace(' ') && !IsWhitespace('"');
    assert [' ', '"', c, '"', ' '][1..] == ['"', c, '"', ' '];
  }

  lemma PaddedQuotedWordEnd(c: char)
    ensures TrimEnd(['"', c, '"', ' ']) == ['"', c, '"']
  {
    assert IsWhitespace(' ') && !IsWhitespace('"');
    assert ['"', c, '"', ' '][..3] == ['"', c, '"'];
  }

  /** One round of cleaning strips the white space around a quoted word but keeps its quotes. */
  lemma CleanQuotedOnce(c: char)
    ensures CleanAbout([' ', '"', c, '"', ' ']) == ['"', c, '"']
  {
    PaddedQuotedWordMatches(c);
    PaddedQuotedWordStart(c);
    PaddedQuotedWordEnd(c);
  }

  /** Cleaning a quoted word strips its quotes. */
  lemma CleanQuotedWord(c: char)
    requires PlainChar(c)
    ensures CleanAbout(['"', c, '"']) == [c]
  {
    QuotedWordSteps(c);
    TrimStartOfTrimmed([c]);
    TrimEndOfTrimmed([c]);
  }

  /**
   * Cleaning is not idempotent: quote marks inside white space survive one round, because
   * the quotes are stripped before the white space; a second round strips them.
   */
  lemma CleanNotIdempotent()
    ensures var i := LegacyInfo("HOME", " \"x\" ");
      Clean(i).about == "\"x\"" && Clean(Clean(i)).about == "x"
  {
    assert " \"x\" " == [' ', '"', 'x', '"', ' '];
    assert "\"x\"" == ['"', 'x', '"'] && "x" == ['x'];
    assert PlainChar('x');
    CleanQuotedOnce('x');
    CleanQuotedWord('x');
  }
}
