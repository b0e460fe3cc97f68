/** The upload dialog: the elapsed-time label, the check that the chosen file
    is an Excel workbook, and the fields sent with an upload. */
module Upload {
  import opened Common
  import opened Text
  import opened Numbers

  /** `formatElapsedTime`: seconds alone below a minute, else minutes and seconds. */
  function FormatElapsedTime(seconds: nat): (r: string)
    ensures seconds < 60 ==> r == NatToString(seconds) + "s"
    ensures seconds >= 60 ==> exists m: nat, rem: nat :: rem < 60 && m * 60 + rem == seconds
                                && r == NatToString(m) + "m " + NatToString(rem) + "s"
  {
    if seconds < 60 then NatToString(seconds) + "s"
    else
      var m, rem := seconds / 60, seconds % 60;
      NatToString(m) + "m " + NatToString(rem) + "s"
  }

  /** Reads a label of the form `{s}s` or `{m}m {s}s` back as a number of seconds. */
  function ReadElapsedTime(shown: string): Option<nat>
  {
    var m := DigitPrefix(shown);
    var rest := shown[|m|..];
    if |m| == 0 then None
    else if rest == "s" then Some(DigitsValue(m))
    else if |rest| >= 2 && rest[..2] == "m " then
      var sec := DigitPrefix(rest[2..]);
      if |sec| > 0 && rest[2..][|sec|..] == "s" then Some(DigitsValue(m) * 60 + DigitsValue(sec)) else None
    else None
  }

  /** A numeral followed by a non-digit tail splits at the tail. */
  lemma NumeralThen(n: nat, tail: string)
    requires |tail| > 0 && !IsDigit(tail[0])
    ensures DigitPrefix(NatToString(n) + tail) == NatToString(n)
    ensures (NatToString(n) + tail)[|NatToString(n)|..] == tail
    ensures DigitsValue(NatToString(n)) == n
  {
    DigitsOfNat(n);
    DigitPrefixBeforeNonDigit(NatToString(n), tail);
  }

  /** The label reads back as the elapsed seconds. */
  lemma ElapsedTimeReadsBack(seconds: nat)
    ensures ReadElapsedTime(FormatElapsedTime(seconds)) == Some(seconds)
  {
    if seconds < 60 {
      NumeralThen(seconds, "s");
    } else {
      var m, rem := seconds / 60, seconds % 60;
      var shown := NatToString(m) + "m " + NatToString(rem) + "s";
      assert shown == NatToString(m) + ("m " + NatToString(rem) + "s");
      NumeralThen(m, "m " + NatToString(rem) + "s");
      var rest := shown[|NatToString(m)|..];
      assert rest[2..] == NatToString(rem) + "s";
      NumeralThen(rem, "s");
    }
  }

  /** `split('.').pop().toLowerCase()` is `xlsx` or `xls`. */
  predicate IsExcelFile(name: string)
  {
    var ext := ToLower(LastSegment(name, '.'));
    ext == "xlsx" || ext == "xls"
  }

  /** For a name with an extension, the extension after the last dot decides,
      whatever its letter case. */
  lemma ExtensionDecides(stem: string, ext: string)
    requires '.' !in ext
    ensures IsExcelFile(stem + "." + ext) <==> ToLower(ext) == "xlsx" || ToLower(ext) == "xls"
  {
    assert stem + "." + ext == stem + ['.'] + ext;
    LastSegmentAfterSeparator(stem, '.', ext);
  }

  /** A name without any dot is judged as a whole, so a file named just `xlsx` or
      `XLS` is accepted. */
  lemma NameWithoutDot(name: string)
    requires '.' !in name
    ensures IsExcelFile(name) <==> ToLower(name) == "xlsx" || ToLower(name) == "xls"
  {
    SplitNoSeparator(name, '.');
  }

  /** `handleFileChange`: an Excel file replaces the chosen one; anything else,
      or no file, leaves the choice as it was. */
  function FileChange(chosen: Option<string>, selected: Option<string>): (r: Option<string>)
    ensures selected.Some? && IsExcelFile(selected.value) ==> r == selected
    ensures !(selected.Some? && IsExcelFile(selected.value)) ==> r == chosen
    ensures (chosen.None? || IsExcelFile(chosen.value)) ==> (r.None? || IsExcelFile(r.value))
  {
    if selected.Some? && IsExcelFile(selected.value) then selected else chosen
  }

  /** The form fields of an upload. */
  datatype UploadForm = UploadForm(fileName: string, clientName: string, description: string)

  datatype UploadRefused = MissingFileOrClient

  /** `handleUpload` up to the request: refused without a file or with a blank
      client name; the names are sent trimmed. */
  function PrepareUpload(chosen: Option<string>, clientName: string, description: string): (r: Result<UploadForm, UploadRefused>)
    ensures r.Failure? <==> chosen.None? || Trim(clientName) == ""
    ensures r.Success? ==> && r.value.fileName == chosen.value
                           && r.value.clientName == Trim(clientName) && r.value.clientName != ""
                           && r.value.description == Trim(description)
  {
    if chosen.None? || Trim(clientName) == "" then Failure(MissingFileOrClient)
    else Success(UploadForm(chosen.value, Trim(clientName), Trim(description)))
  }

  /** Preparing again from the fields sent gives the same fields: the sent names
      are already trimmed. */
  lemma PrepareUploadStable(chosen: Option<string>, clientName: string, description: string)
    requires PrepareUpload(chosen, clientName, description).Success?
    ensures var f := PrepareUpload(chosen, clientName, description).value;
            PrepareUpload(Some(f.fileName), f.clientName, f.description) == Success(f)
  {
    TrimIdempotent(clientName);
    TrimIdempotent(description);
  }
}
