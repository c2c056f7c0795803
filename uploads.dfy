/**
 * The thumbnail-upload rules repeated in the three content route files: the extension
 * check `allowed_file`, the name a file is saved under (werkzeug's `secure_filename`),
 * the public URL stored in the row (`url_for('static', filename='uploads/<name>',
 * _external=True)`) and the name a delete handler removes (`os.path.basename` of that URL).
 */
module Uploads {
  import opened Wrappers
  import opened Text

  const ALLOWED_EXTENSIONS: set<string> := {"png", "jpg", "jpeg", "gif"}
  /** The scheme and host `url_for(..., _external=True)` takes from the request; fixed here. */
  const HOST_URL := "http://127.0.0.1:5000"

  /** A file part of a multipart request; only its client-supplied name matters here. */
  datatype Upload = Upload(filename: string)

  // ---------------------------------------------------------------------------------
  // allowed_file

  /** The name contains a '.' and the lower-cased text after the last '.' is an allowed extension. */
  predicate AllowedFile(filename: string)
  {
    '.' in filename && Lower(AfterLast(filename, '.')) in ALLOWED_EXTENSIONS
  }

  /** Position `i` holds the last '.' of `f` and what follows it is an allowed extension in any case. */
  predicate ExtensionDotAt(f: string, i: int)
  {
    0 <= i < |f| && f[i] == '.' && '.' !in f[i + 1..] && Lower(f[i + 1..]) in ALLOWED_EXTENSIONS
  }

  lemma AllowedFileSpec(f: string)
    ensures AllowedFile(f) <==> exists i :: ExtensionDotAt(f, i)
  {
    if AllowedFile(f) {
      var ext := AfterLast(f, '.');
      var i := |f| - |ext| - 1;
      assert f[i + 1..] == ext;
      assert ExtensionDotAt(f, i);
    }
    if i :| ExtensionDotAt(f, i) {
      AfterLastUnique(f, '.', f[i + 1..]);
    }
  }

  lemma AllowedFileAccepts()
    ensures AllowedFile("a.PNG") && AllowedFile("photo.v2.JpEg") && AllowedFile(".gif")
  {
    AcceptedExtension("a.PNG", "PNG", "png");
    AcceptedExtension("photo.v2.JpEg", "JpEg", "jpeg");
    AcceptedExtension(".gif", "gif", "gif");
  }

  /** A name ending in '.' and an extension without '.' that lower-cases to an allowed one. */
  lemma AcceptedExtension(f: string, ext: string, low: string)
    requires |ext| < |f| && f[|f| - |ext|..] == ext && f[|f| - |ext| - 1] == '.' && '.' !in ext
    requires low in ALLOWED_EXTENSIONS && |ext| == |low| && forall i :: 0 <= i < |ext| ==> LowerChar(ext[i]) == low[i]
    ensures AllowedFile(f)
  {
    AfterLastUnique(f, '.', ext);
    LowerExample(ext, low);
  }

  lemma AllowedFileRejects()
    ensures !AllowedFile("png") && !AllowedFile("x.") && !AllowedFile("x.png.exe")
  {
    assert !AllowedFile("png") by { assert '.' !in "png"; }
    assert AfterLast("x.", '.') == "" by { AfterLastUnique("x.", '.', ""); }
    assert AfterLast("x.png.exe", '.') == "exe" by { AfterLastUnique("x.png.exe", '.', "exe"); }
    assert Lower("exe") == "exe" by { LowerExample("exe", "exe"); }
  }

  // ---------------------------------------------------------------------------------
  // secure_filename, on ASCII: drop non-ASCII characters, turn the path separator '/'
  // into a space, join the whitespace-separated words with '_', drop every character
  // outside [A-Za-z0-9_.-], then strip '.' and '_' from both ends.

  predicate IsAscii(c: char) { c as int < 128 }

  /** Python's str.isspace() on ASCII characters. */
  predicate IsSpace(c: char) { c == ' ' || 9 <= c as int <= 13 || 28 <= c as int <= 31 }

  predicate IsSafe(c: char)
  {
    'A' <= c <= 'Z' || 'a' <= c <= 'z' || '0' <= c <= '9' || c == '_' || c == '.' || c == '-'
  }

  predicate IsStripped(c: char) { c == '.' || c == '_' }

  predicate IsAsciiLetter(c: char) { 'A' <= c <= 'Z' || 'a' <= c <= 'z' }

  // The steps carry no postconditions, so that a handler mentioning a saved name does not
  // drag their facts into its proof; the lemmas below state what the steps guarantee.

  /** The characters of `s` for which `keep` holds, in order. */
  function KeepChars(s: string, keep: char -> bool): string
  {
    if s == [] then []
    else KeepChars(s[..|s| - 1], keep) + (if keep(s[|s| - 1]) then [s[|s| - 1]] else [])
  }

  function SeparatorsToSpaces(s: string): string
  {
    seq(|s|, i requires 0 <= i < |s| => if s[i] == '/' then ' ' else s[i])
  }

  /** The longest prefix of `s` without whitespace. */
  function Word(s: string): (w: string)
    ensures |w| <= |s|
  {
    if s == [] || IsSpace(s[0]) then [] else [s[0]] + Word(s[1..])
  }

  /** "_".join(s.split()) */
  function JoinWords(s: string): string
    decreases |s|
  {
    if s == [] then []
    else if IsSpace(s[0]) then JoinWords(s[1..])
    else
      var w := Word(s);
      var rest := JoinWords(s[|w|..]);
      if rest == [] then w else w + "_" + rest
  }

  function StripLeading(s: string): string
  {
    if s != [] && IsStripped(s[0]) then StripLeading(s[1..]) else s
  }

  function StripTrailing(s: string): string
  {
    if s != [] && IsStripped(s[|s| - 1]) then StripTrailing(s[..|s| - 1]) else s
  }

  function SecureFilename(filename: string): string
  {
    var words := JoinWords(SeparatorsToSpaces(KeepChars(filename, IsAscii)));
    StripTrailing(StripLeading(KeepChars(words, IsSafe)))
  }

  lemma {:induction false} KeepCharsKept(s: string, keep: char -> bool)
    ensures forall i :: 0 <= i < |KeepChars(s, keep)| ==> keep(KeepChars(s, keep)[i])
  {
    if s != [] {
      KeepCharsKept(s[..|s| - 1], keep);
    }
  }

  lemma KeepCharsKeepsLast(s: string, keep: char -> bool)
    requires s != [] && keep(s[|s| - 1])
    ensures KeepChars(s, keep) != [] && KeepChars(s, keep)[|KeepChars(s, keep)| - 1] == s[|s| - 1]
  {
  }

  lemma {:induction false} StripLeadingIsSuffix(s: string)
    ensures |StripLeading(s)| <= |s| && StripLeading(s) == s[|s| - |StripLeading(s)|..]
  {
    if s != [] && IsStripped(s[0]) {
      StripLeadingIsSuffix(s[1..]);
    }
  }

  lemma {:induction false} StripTrailingIsPrefix(s: string)
    ensures |StripTrailing(s)| <= |s| && StripTrailing(s) == s[..|StripTrailing(s)|]
  {
    if s != [] && IsStripped(s[|s| - 1]) {
      StripTrailingIsPrefix(s[..|s| - 1]);
    }
  }

  lemma {:induction false} StripLeadingKeepsLast(s: string)
    requires s != [] && !IsStripped(s[|s| - 1])
    ensures StripLeading(s) != [] && StripLeading(s)[|StripLeading(s)| - 1] == s[|s| - 1]
  {
    if IsStripped(s[0]) {
      StripLeadingKeepsLast(s[1..]);
    }
  }

  lemma {:induction false} StripLeadingHead(s: string)
    ensures StripLeading(s) == [] || !IsStripped(StripLeading(s)[0])
  {
    if s != [] && IsStripped(s[0]) {
      StripLeadingHead(s[1..]);
    }
  }

  lemma {:induction false} WordIsPrefix(s: string)
    ensures Word(s) == s[..|Word(s)|]
    ensures |Word(s)| < |s| ==> IsSpace(s[|Word(s)|])
  {
    if s != [] && !IsSpace(s[0]) {
      WordIsPrefix(s[1..]);
    }
  }

  lemma {:induction false} JoinWordsKeepsLast(s: string)
    requires s != [] && !IsSpace(s[|s| - 1])
    ensures JoinWords(s) != [] && JoinWords(s)[|JoinWords(s)| - 1] == s[|s| - 1]
    decreases |s|
  {
    if IsSpace(s[0]) {
      JoinWordsKeepsLast(s[1..]);
    } else {
      var w := Word(s);
      WordIsPrefix(s);
      if |w| < |s| {
        JoinWordsKeepsLast(s[|w|..]);
      } else {
        assert s[|w|..] == [];
      }
    }
  }

  /**
   * A sanitised name holds only characters of [A-Za-z0-9_.-], so no '/', and does not
   * start with '.', so it is none of "." and "..".
   */
  lemma SecureFilenameIsSafe(filename: string)
    ensures forall i :: 0 <= i < |SecureFilename(filename)| ==> IsSafe(SecureFilename(filename)[i])
    ensures '/' !in SecureFilename(filename)
    ensures SecureFilename(filename) == [] || SecureFilename(filename)[0] != '.'
  {
    var words := JoinWords(SeparatorsToSpaces(KeepChars(filename, IsAscii)));
    var safe := KeepChars(words, IsSafe);
    KeepCharsKept(words, IsSafe);
    var lead := StripLeading(safe);
    StripLeadingIsSuffix(safe);
    StripLeadingHead(safe);
    StripTrailingIsPrefix(lead);
    var r := SecureFilename(filename);
    assert forall i :: 0 <= i < |r| ==> r[i] == lead[i] == safe[|safe| - |lead| + i];
  }

  /** An allowed name never sanitises to the empty name (the upload folder itself):
      its last character is a letter of the extension, and every step keeps it. */
  lemma AllowedNameSurvivesSanitising(filename: string)
    requires AllowedFile(filename)
    ensures SecureFilename(filename) != []
    ensures SecureFilename(filename)[|SecureFilename(filename)| - 1] == filename[|filename| - 1]
  {
    var ext := AfterLast(filename, '.');
    var low := Lower(ext);
    assert low[|low| - 1] in {'g', 'f'};
    var c := filename[|filename| - 1];
    assert c == ext[|ext| - 1];
    assert IsAsciiLetter(c);
    var ascii := KeepChars(filename, IsAscii);
    KeepCharsKeepsLast(filename, IsAscii);
    var spaced := SeparatorsToSpaces(ascii);
    assert spaced[|spaced| - 1] == c;
    var words := JoinWords(spaced);
    JoinWordsKeepsLast(spaced);
    var safe := KeepChars(words, IsSafe);
    KeepCharsKeepsLast(words, IsSafe);
    StripLeadingKeepsLast(safe);
  }

  // ---------------------------------------------------------------------------------
  // url_for and os.path.basename

  function UploadUrl(name: string): string
  {
    HOST_URL + "/static/uploads/" + name
  }

  function Basename(path: string): string
  {
    AfterLast(path, '/')
  }

  lemma BasenameOfUploadUrl(name: string)
    requires '/' !in name
    ensures Basename(UploadUrl(name)) == name
  {
    var url := UploadUrl(name);
    assert url[|url| - |name|..] == name;
    assert url[|url| - |name| - 1] == '/';
    AfterLastUnique(url, '/', name);
  }

  // ---------------------------------------------------------------------------------
  // The upload block shared by every create and update handler, and the removal block
  // shared by every delete handler.

  /** The name under which the handler saves `file`, when it saves it at all. */
  function StoredName(file: Option<Upload>): Option<string>
  {
    if file.Some? && AllowedFile(file.value.filename) then Some(SecureFilename(file.value.filename)) else None
  }

  /** The thumbnail reference the handler writes into the row. */
  function ThumbnailFor(file: Option<Upload>): Option<string>
  {
    match StoredName(file)
    case Some(name) => Some(UploadUrl(name))
    case None => None
  }

  /** The thumbnail a row holds after an update: the new URL when a file was accepted, else the stored one. */
  function NewThumbnail(file: Option<Upload>, stored: Option<string>): Option<string>
  {
    if ThumbnailFor(file).Some? then ThumbnailFor(file) else stored
  }

  function SavedNames(file: Option<Upload>): set<string>
  {
    match StoredName(file)
    case Some(name) => {name}
    case None => {}
  }

  /**
   * A thumbnail as the handlers write it: none, or a URL whose basename names a file
   * inside the upload folder: not empty and not starting with '.', so neither the folder
   * itself nor "." nor "..".
   */
  predicate IsUploadRef(thumbnail: Option<string>)
  {
    thumbnail.Some? ==> var name := Basename(thumbnail.value); name != "" && name[0] != '.'
  }

  /** Every thumbnail a create handler writes is an upload reference. */
  lemma ThumbnailForIsUploadRef(file: Option<Upload>)
    ensures IsUploadRef(ThumbnailFor(file))
  {
    if StoredName(file).Some? {
      SecureFilenameIsSafe(file.value.filename);
      AllowedNameSurvivesSanitising(file.value.filename);
      BasenameOfUploadUrl(StoredName(file).value);
    }
  }

  /** An update keeps a row's thumbnail an upload reference. */
  lemma NewThumbnailIsUploadRef(file: Option<Upload>, stored: Option<string>)
    requires IsUploadRef(stored)
    ensures IsUploadRef(NewThumbnail(file, stored))
  {
    ThumbnailForIsUploadRef(file);
  }

  /** The file name a delete handler removes for a row holding `thumbnail` (when it exists). */
  function ReclaimedNames(thumbnail: Option<string>): set<string>
  {
    if thumbnail.Some? && thumbnail.value != "" then {Basename(thumbnail.value)} else {}
  }

  /** Deleting a row whose thumbnail a create or update handler wrote removes exactly the file
      that handler saved, and a row written without an accepted file reclaims nothing. */
  lemma DeleteReclaimsSavedFile(file: Option<Upload>)
    ensures ReclaimedNames(ThumbnailFor(file)) == SavedNames(file)
  {
    if StoredName(file).Some? {
      SecureFilenameIsSafe(file.value.filename);
      BasenameOfUploadUrl(StoredName(file).value);
    }
  }

  /** A saved name is never empty, so the handlers never write to the folder's own path. */
  lemma SavedNamesNonEmpty(file: Option<Upload>)
    ensures "" !in SavedNames(file)
  {
    if StoredName(file).Some? {
      AllowedNameSurvivesSanitising(file.value.filename);
    }
  }
}
