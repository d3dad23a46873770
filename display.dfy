/**
 * The labels src/utils/display.rs writes for files dragged onto the window: a dropped file
 * is named by its path, else its name, else a placeholder, followed by its size when its
 * bytes were delivered; a hovered file is named by its path, else its mime type, else the
 * placeholder. Formatter writes become string concatenation.
 */
module Display {
  import opened Wrappers
  import opened Decimal

  /** `egui::DroppedFile`, without its modification time, which is never shown. */
  datatype DroppedFile = DroppedFile(path: Option<string>, name: string, bytes: Option<seq<bv8>>)

  /** `egui::HoveredFile`. */
  datatype HoveredFile = HoveredFile(path: Option<string>, mime: string)

  /** The placeholder for a file with nothing to name it by: three question marks, a space, U+FF1F. */
  const Unknown: string := "??? \U{FF1F}"

  /** The path when there is one, else `fallback` when it is non-empty, else the placeholder. */
  function Identify(path: Option<string>, fallback: string): (r: string)
    ensures path.Some? ==> r == path.value
    ensures path.None? && fallback != [] ==> r == fallback
    ensures path.None? && fallback == [] ==> r == Unknown
  {
    match path
    case Some(p) => p
    case None => if fallback != [] then fallback else Unknown
  }

  /** ` (N bytes)` with `N` the byte count, or nothing when the bytes are absent. */
  function BytesSuffix(bytes: Option<seq<bv8>>): string
  {
    match bytes
    case Some(b) => " (" + ToDecimal(|b|) + " bytes)"
    case None => ""
  }

  /** `Display<&DroppedFile>`. */
  function DroppedLabel(file: DroppedFile): string
  {
    Identify(file.path, file.name) + BytesSuffix(file.bytes)
  }

  /** `Display<&HoveredFile>`. */
  function HoveredLabel(file: HoveredFile): string
  {
    Identify(file.path, file.mime)
  }

  /* ---------- reading the size back ---------- */

  /** The length of the run of digits that ends `s`. */
  function TrailingDigits(s: string): (n: nat)
    ensures n <= |s|
    decreases |s|
  {
    if s == [] || !IsDigit(s[|s| - 1]) then 0 else TrailingDigits(s[..|s| - 1]) + 1
  }

  /** The run of digits after a non-digit is all of the trailing digits. */
  lemma {:induction false} TrailingDigitsOf(p: string, d: string)
    requires AllDigits(d)
    requires p == [] || !IsDigit(p[|p| - 1])
    ensures TrailingDigits(p + d) == |d|
    decreases |d|
  {
    if d == [] {
      assert p + d == p;
    } else {
      var init := d[..|d| - 1];
      assert (p + d)[..|p + d| - 1] == p + init;
      TrailingDigitsOf(p, init);
    }
  }

  predicate EndsWithBytes(s: string)
  {
    |s| >= 7 && s[|s| - 7] == ' ' && s[|s| - 6] == 'b' && s[|s| - 5] == 'y' && s[|s| - 4] == 't'
    && s[|s| - 3] == 'e' && s[|s| - 2] == 's' && s[|s| - 1] == ')'
  }

  predicate EndsWithOpening(s: string)
  {
    |s| >= 2 && s[|s| - 2] == ' ' && s[|s| - 1] == '('
  }

  /** The size a label ending in ` (N bytes)` announces, if it ends so. */
  function BytesOf(text: string): Option<nat>
  {
    if !EndsWithBytes(text) then None
    else
      var body := text[..|text| - 7];
      var n := TrailingDigits(body);
      var before := body[..|body| - n];
      if n == 0 || !EndsWithOpening(before) then None
      else
        TrailingDigitsAreDigits(body);
        Some(Value(body[|body| - n..]))
  }

  lemma {:induction false} TrailingDigitsAreDigits(s: string)
    ensures AllDigits(s[|s| - TrailingDigits(s)..])
    decreases |s|
  {
    if s != [] && IsDigit(s[|s| - 1]) {
      var init := s[..|s| - 1];
      TrailingDigitsAreDigits(init);
      var n := TrailingDigits(init);
      assert s[|s| - (n + 1)..] == init[|init| - n..] + [s[|s| - 1]];
    }
  }

  /** A label built from a head and a size shows that size. */
  lemma SizeOfSuffixed(head: string, size: nat)
    ensures BytesOf(head + " (" + ToDecimal(size) + " bytes)") == Some(size)
  {
    var digits := ToDecimal(size);
    var before := head + " (";
    var body := before + digits;
    var text := body + " bytes)";
    assert text[..|text| - 7] == body;
    assert EndsWithBytes(text);
    TrailingDigitsOf(before, digits);
    assert body[..|body| - |digits|] == before;
    assert body[|body| - |digits|..] == digits;
    ValueOfToDecimal(size);
  }

  /** When its bytes were delivered, a dropped file's label tells their number. */
  lemma DroppedLabelTellsSize(file: DroppedFile)
    requires file.bytes.Some?
    ensures BytesOf(DroppedLabel(file)) == Some(|file.bytes.value|)
  {
    var head := Identify(file.path, file.name);
    var size := |file.bytes.value|;
    assert DroppedLabel(file) == head + " (" + ToDecimal(size) + " bytes)";
    SizeOfSuffixed(head, size);
  }

  /**
   * A dropped file's label begins with its path, else its non-empty name, else the
   * placeholder, and has nothing after that exactly when its bytes are absent.
   */
  lemma DroppedLabelShape(file: DroppedFile)
    ensures Identify(file.path, file.name) <= DroppedLabel(file)
    ensures DroppedLabel(file) == Identify(file.path, file.name) <==> file.bytes.None?
  {
    var head := Identify(file.path, file.name);
    if file.bytes.Some? {
      assert |DroppedLabel(file)| > |head|;
    }
  }

  /** A hovered file is labelled as a dropped file named by its mime type whose bytes are absent. */
  lemma HoveredIsDroppedWithoutBytes(file: HoveredFile)
    ensures HoveredLabel(file) == DroppedLabel(DroppedFile(file.path, file.mime, None))
  {
    assert BytesSuffix(None) == [];
  }
}
