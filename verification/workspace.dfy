/** One run's workspace (`run_simulation`, `replace_temperature_strings`):
    the folder name built from the integer temperature, the copy of the base
    template into the folder, and the placeholder substitution over every
    file in it. The file tree is an immutable map from relative paths to
    file contents; reading and decoding a file as text is the codec's job. */
module Workspace {
  import opened Text
  import Decimal
  import Placeholder

  newtype byte = b: int | 0 <= b < 256

  type Bytes = seq<byte>

  /** A file path relative to the workspace folder, as its components. */
  datatype Path = Path(parts: seq<string>)

  /** The files under a folder, at any depth; directories are implied. */
  type Tree = map<Path, Bytes>

  /** How a file is read as text and written back (`read_text`/`write_text`
      with the platform's default encoding): `decode` is `None` exactly when
      reading raises `UnicodeDecodeError`. */
  datatype TextCodec = TextCodec(decode: Bytes -> Option<string>, encode: string -> Bytes)

  /** What reading in universal-newline mode and writing guarantee: decoded
      text never holds a carriage return (`\r` and `\r\n` are read as `\n`),
      and text without one reads back as it was written. */
  ghost predicate ReadsBack(codec: TextCodec) {
    && (forall b :: codec.decode(b).Some? ==> '\r' !in codec.decode(b).value)
    && (forall text :: '\r' !in text ==> codec.decode(codec.encode(text)) == Some(text))
  }

  /** `PurePath.name`: the final component. */
  function Name(p: Path): string {
    if |p.parts| == 0 then "" else p.parts[|p.parts| - 1]
  }

  /** `str.rfind('.')`. */
  function LastDot(s: string): (r: Option<nat>)
    ensures r.Some? ==> r.value < |s| && s[r.value] == '.'
    ensures r.Some? ==> forall j :: r.value < j < |s| ==> s[j] != '.'
    ensures r.None? ==> '.' !in s
    decreases |s|
  {
    if |s| == 0 then None
    else if s[|s| - 1] == '.' then Some(|s| - 1)
    else LastDot(s[..|s| - 1])
  }

  /** `PurePath.suffix`: the final component from its last dot on, when that
      dot is neither the first nor the last character; otherwise empty. */
  function Suffix(name: string): (r: string)
    ensures r == [] || (r[0] == '.' && 2 <= |r| < |name| && EndsWith(name, r))
    ensures r != [] ==> '.' !in r[1..]
  {
    match LastDot(name)
    case Some(i) =>
      if 0 < i < |name| - 1 then
        assert forall j :: 0 <= j < |name| - i - 1 ==> name[i..][1..][j] == name[i + 1 + j];
        name[i..]
      else []
    case None => []
  }

  /** A name has the extension `ext` (a dot and then no further dot) exactly
      when it ends with `ext` and has something before it. */
  lemma SuffixIs(name: string, ext: string)
    requires |ext| >= 2 && ext[0] == '.' && '.' !in ext[1..]
    ensures Suffix(name) == ext <==> |name| > |ext| && EndsWith(name, ext)
  {
    if |name| > |ext| && EndsWith(name, ext) {
      var i := |name| - |ext|;
      assert name[i] == '.';
      forall j | i < j < |name|
        ensures name[j] != '.'
      {
        assert name[j] == ext[1..][j - i - 1];
      }
      var d := LastDot(name);
      assert d.Some? && d.value >= i;
      assert d.value == i;
    }
  }

  /** The extensions that mark a file as binary; compared case-sensitively. */
  const BinaryExtensions: seq<string> := [".exe", ".bin"]

  predicate Skipped(p: Path) {
    Suffix(Name(p)) in BinaryExtensions
  }

  /** Only the extensions themselves are skipped: `.EXE`, `.exe.txt` or a
      file named just `.exe` still get substituted. */
  lemma SkippedIff(p: Path)
    ensures Skipped(p) <==>
      |Name(p)| > 4 && (EndsWith(Name(p), ".exe") || EndsWith(Name(p), ".bin"))
  {
    assert ".exe"[1..] == "exe" && ".bin"[1..] == "bin";
    SuffixIs(Name(p), ".exe");
    SuffixIs(Name(p), ".bin");
  }

  /** What one file holds after the substitution for temperature `n`. */
  function NewContent(p: Path, content: Bytes, n: int, codec: TextCodec): (r: Bytes)
    ensures Skipped(p) ==> r == content
    ensures codec.decode(content).None? ==> r == content
    ensures !Skipped(p) && codec.decode(content).Some? ==>
      var text := codec.decode(content).value;
      r == if Placeholder.HasToken(text) then codec.encode(Placeholder.Substitute(text, n)) else content
  {
    if Skipped(p) then content
    else
      match codec.decode(content)
      case None => content
      case Some(text) =>
        var newText := Placeholder.Substitute(text, n);
        if newText != text then codec.encode(newText) else content
  }

  /** `replace_temperature_strings` over a folder holding `tree`. */
  function SubstituteTree(tree: Tree, n: int, codec: TextCodec): (r: Tree)
    ensures r.Keys == tree.Keys
    ensures forall p :: p in tree && (Skipped(p) || codec.decode(tree[p]).None?) ==> r[p] == tree[p]
    ensures forall p :: p in tree && !Skipped(p) && codec.decode(tree[p]).Some? ==>
      var text := codec.decode(tree[p]).value;
      r[p] == if Placeholder.HasToken(text) then codec.encode(Placeholder.Substitute(text, n)) else tree[p]
  {
    map p | p in tree :: NewContent(p, tree[p], n, codec)
  }

  /** Once substituted, a file is left alone by a second substitution. */
  lemma NewContentIdempotent(p: Path, content: Bytes, n: int, codec: TextCodec)
    requires ReadsBack(codec)
    ensures NewContent(p, NewContent(p, content, n, codec), n, codec) == NewContent(p, content, n, codec)
  {
    if !Skipped(p) && codec.decode(content).Some? {
      var text := codec.decode(content).value;
      if Placeholder.HasToken(text) {
        var newText := Placeholder.Substitute(text, n);
        Placeholder.SubstituteKeepsOut(text, n, '\r');
        assert codec.decode(codec.encode(newText)) == Some(newText);
      }
    }
  }

  lemma SubstituteTreeIdempotent(tree: Tree, n: int, codec: TextCodec)
    requires ReadsBack(codec)
    ensures SubstituteTree(SubstituteTree(tree, n, codec), n, codec) == SubstituteTree(tree, n, codec)
  {
    var once := SubstituteTree(tree, n, codec);
    var twice := SubstituteTree(once, n, codec);
    forall p | p in tree
      ensures twice[p] == once[p]
    {
      NewContentIdempotent(p, tree[p], n, codec);
    }
  }

  /** Copy the base template into a folder that already holds `existing`
      (same-named files are overwritten), then substitute over the whole
      folder, earlier files included. */
  function Materialize(existing: Tree, base: Tree, n: int, codec: TextCodec): (r: Tree)
    ensures r.Keys == existing.Keys + base.Keys
    ensures forall p :: p in base ==> r[p] == NewContent(p, base[p], n, codec)
    ensures forall p :: p in existing && p !in base ==> r[p] == NewContent(p, existing[p], n, codec)
  {
    SubstituteTree(existing + base, n, codec)
  }

  /** Materializing the same temperature twice leaves the folder as the
      first time did. */
  lemma MaterializeIdempotent(existing: Tree, base: Tree, n: int, codec: TextCodec)
    requires ReadsBack(codec)
    ensures Materialize(Materialize(existing, base, n, codec), base, n, codec) ==
            Materialize(existing, base, n, codec)
  {
    var once := Materialize(existing, base, n, codec);
    var twice := Materialize(once, base, n, codec);
    forall p | p in once
      ensures twice[p] == once[p]
    {
      if p !in base {
        NewContentIdempotent(p, existing[p], n, codec);
      }
    }
  }

  /** `f"T_{n:04d}"`: it reads back to the temperature. */
  function FolderName(n: int): (r: string)
    ensures |r| >= 6 && StartsWith(r, "T_")
    ensures FolderTemperature(r) == Some(n)
  {
    var r := "T_" + Decimal.Format04(n);
    assert r[2..] == Decimal.Format04(n);
    Decimal.Format04RoundTrip(n);
    r
  }

  /** Reads a folder name back to its temperature. */
  function FolderTemperature(name: string): Option<int> {
    if StartsWith(name, "T_") then Decimal.Parse(name[2..]) else None
  }

  /** Distinct integer temperatures get distinct folders. */
  lemma FolderNameInjective(a: int, b: int)
    requires FolderName(a) == FolderName(b)
    ensures a == b
  {
    assert FolderTemperature(FolderName(a)) == Some(a);
  }

  /** From 0 to 9999 the name is `T_` and four digits. */
  lemma FolderNameLength(n: int)
    requires 0 <= n <= 9999
    ensures |FolderName(n)| == 6
    ensures forall i :: 2 <= i < 6 ==> Decimal.IsDigit(FolderName(n)[i])
  {
    Decimal.Format04FourDigits(n);
  }

  /** Above 9999 (and below -999) nothing is cut: the name is `T_` and the
      plain decimal text. */
  lemma FolderNameNoTruncation(n: int)
    requires n > 9999 || n < -999
    ensures FolderName(n) == "T_" + Decimal.Format(n)
  {
    assert Decimal.Pow10(3) == 1000;
    if n < 0 {
      Decimal.DigitsAtLeast(-n, 4);
      assert Decimal.Format(n) == "-" + Decimal.Digits(-n);
    } else {
      Decimal.DigitsAtLeast(n, 4);
      assert Decimal.Format(n) == Decimal.Digits(n);
    }
  }
}
