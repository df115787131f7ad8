/** Values and string operations the script relies on: JavaScript numbers as
    the script can hold them, ASCII lower-casing, the prefix before the first
    dot, Node's path.extname, the export-name regular expression, and decimal
    reading and writing of integers. */
module Text {

  datatype Option<T> = None | Some(value: T)

  /** A JavaScript number as the script can hold it: an integer, or NaN
      (what Number() gives for a missing option or a malformed capture). */
  datatype Num = Int(value: int) | NaN

  /** JavaScript `a >= b`: false as soon as either side is NaN. */
  predicate AtLeast(a: Num, b: Num)
  {
    a.Int? && b.Int? && a.value >= b.value
  }

  /** JavaScript `a < 0`: false for NaN. */
  predicate IsNegative(a: Num)
  {
    a.Int? && a.value < 0
  }

  // ---------------------------------------------------------------------
  // Lower-casing (String.prototype.toLowerCase, restricted to ASCII)

  function LowerChar(c: char): char
  {
    if 'A' <= c <= 'Z' then (c as int + 32) as char else c
  }

  function Lower(s: string): string
  {
    seq(|s|, i requires 0 <= i < |s| => LowerChar(s[i]))
  }

  /** Lower-casing never creates nor removes a dot. */
  lemma LowerKeepsDots(s: string)
    ensures |Lower(s)| == |s|
    ensures forall i :: 0 <= i < |s| ==> (Lower(s)[i] == '.' <==> s[i] == '.')
  {
  }

  // ---------------------------------------------------------------------
  // Prefix: `file.split('.')[0]`

  predicate NoDot(s: string)
  {
    forall k :: 0 <= k < |s| ==> s[k] != '.'
  }

  /** Index of the first '.' of s at or after i, or |s| when there is none. */
  function FirstDotFrom(s: string, i: nat): (d: nat)
    requires i <= |s|
    ensures i <= d <= |s|
    ensures d < |s| ==> s[d] == '.'
    ensures forall k :: i <= k < d ==> s[k] != '.'
    decreases |s| - i
  {
    if i == |s| || s[i] == '.' then i else FirstDotFrom(s, i + 1)
  }

  /** The text before the first '.', the whole name when there is none. */
  function Prefix(s: string): (p: string)
    ensures NoDot(p)
    ensures |p| <= |s| && s[..|p|] == p
    ensures |p| < |s| ==> s[|p|] == '.'
  {
    s[..FirstDotFrom(s, 0)]
  }

  // ---------------------------------------------------------------------
  // Extension: Node's `path.extname` on a name without '/'

  /** Index of the last '.' among the first n characters of s. */
  function LastDotBefore(s: string, n: nat): (r: Option<nat>)
    requires n <= |s|
    ensures r.Some? ==> r.value < n && s[r.value] == '.' && forall k :: r.value < k < n ==> s[k] != '.'
    ensures r.None? ==> forall k :: 0 <= k < n ==> s[k] != '.'
  {
    if n == 0 then None
    else if s[n - 1] == '.' then Some(n - 1)
    else LastDotBefore(s, n - 1)
  }

  /** From the last '.' to the end; empty when there is no dot, when the only
      dot that could start it is the first character (".bashrc"), and for "..". */
  function ExtName(s: string): string
  {
    match LastDotBefore(s, |s|)
    case None => ""
    case Some(i) => if i == 0 || s == ".." then "" else s[i..]
  }

  /** An extension is empty, or a dot followed by dot-free text that ends
      the name. */
  lemma ExtNameShape(s: string)
    ensures var e := ExtName(s);
      && (e == [] || (|e| < |s| && e == s[|s| - |e|..] && e[0] == '.' && NoDot(e[1..])))
      // non-empty exactly when a dot follows the first character, except for ".."
      && (e != [] <==> s != ".." && exists i :: 0 < i < |s| && s[i] == '.')
  {
    match LastDotBefore(s, |s|)
    case None =>
    case Some(i) =>
      if i == 0 {
        assert forall k :: 0 < k < |s| ==> s[k] != '.';
      }
      if i != 0 && s != ".." {
        assert forall k :: 0 <= k < |s| - i - 1 ==> s[i..][1..][k] == s[i + 1 + k];
      }
  }

  /** The extension of `p + ".jpg"` for a non-empty dot-free p is ".jpg". */
  lemma ExtNameOfDotJpg(p: string)
    requires p != [] && NoDot(p)
    ensures ExtName(p + ".jpg") == ".jpg"
  {
    var s := p + ".jpg";
    assert forall k :: 0 <= k < |s| && k != |p| ==> s[k] != '.';
    assert s[|p|] == '.';
    assert s[|p|..] == ".jpg";
  }

  // ---------------------------------------------------------------------
  // The export name: the regular expression /^.+\..+\.jpg$/

  /** Characters that '.' in a JavaScript regular expression does not match. */
  predicate IsLineTerminator(c: char)
  {
    c == '\n' || c == '\r' || c == '\U{2028}' || c == '\U{2029}'
  }

  predicate NoLineTerminator(s: string)
  {
    forall k :: 0 <= k < |s| ==> !IsLineTerminator(s[k])
  }

  /** s matches /^.+\..+\.jpg$/: it ends in ".jpg", and what comes before
      that has no line terminator and a dot with at least one character on
      each side of it. */
  predicate IsExportName(s: string)
  {
    && |s| >= 7
    && s[|s| - 4..] == ".jpg"
    && NoLineTerminator(s[..|s| - 4])
    && exists i :: 1 <= i <= |s| - 6 && s[i] == '.'
  }

  /** Every instance `a.b.jpg` of the pattern, with a and b non-empty and
      free of line terminators, is an export name. */
  lemma ExportNameOfParts(a: string, b: string)
    requires a != [] && b != []
    requires NoLineTerminator(a) && NoLineTerminator(b)
    ensures IsExportName(a + "." + b + ".jpg")
  {
    var s := a + "." + b + ".jpg";
    assert s[|s| - 4..] == ".jpg";
    assert s[..|s| - 4] == a + "." + b;
    assert s[|a|] == '.';
  }

  /** Every export name splits as `a.b.jpg` with a and b as above. */
  lemma ExportNameParts(s: string) returns (a: string, b: string)
    requires IsExportName(s)
    ensures a != [] && b != []
    ensures NoLineTerminator(a) && NoLineTerminator(b)
    ensures s == a + "." + b + ".jpg"
  {
    var i :| 1 <= i <= |s| - 6 && s[i] == '.';
    var body := s[..|s| - 4];
    a, b := s[..i], s[i + 1..|s| - 4];
    assert body == a + "." + b;
    assert s == body + ".jpg";
    assert forall k :: 0 <= k < |a| ==> a[k] == body[k];
    assert forall k :: 0 <= k < |b| ==> b[k] == body[i + 1 + k];
  }

  /** A plain preview name, a dot-free prefix followed by ".jpg", is never
      an export name: the two slots of a record never compete for a file. */
  lemma PreviewIsNotExport(p: string)
    requires NoDot(p)
    ensures !IsExportName(p + ".jpg")
  {
    var s := p + ".jpg";
    assert forall i :: 0 <= i < |p| ==> s[i] == p[i];
  }

  // ---------------------------------------------------------------------
  // Decimal numbers: Number() of a capture of /[-0-9]+/, and `${n}`

  predicate IsDigit(c: char)
  {
    '0' <= c <= '9'
  }

  predicate AllDigits(s: string)
  {
    forall k :: 0 <= k < |s| ==> IsDigit(s[k])
  }

  function DigitChar(d: nat): (c: char)
    requires d < 10
    ensures IsDigit(c)
  {
    ('0' as int + d) as char
  }

  /** Value of a digit string, most significant digit first. */
  function DecimalValue(s: string): nat
    requires AllDigits(s)
  {
    if s == [] then 0
    else DecimalValue(s[..|s| - 1]) * 10 + (s[|s| - 1] as int - '0' as int)
  }

  /** A capture of the character class [-0-9]+. */
  predicate IsRatingChar(c: char)
  {
    c == '-' || IsDigit(c)
  }

  predicate IsRatingCapture(s: string)
  {
    s != [] && forall k :: 0 <= k < |s| ==> IsRatingChar(s[k])
  }

  /** JavaScript Number() of such a capture: digits, or one '-' and digits,
      give an integer (leading zeros allowed, "-0" reads as 0); anything else
      ("-", "1-2", "--3") is NaN. */
  function ToNumber(s: string): Num
    requires IsRatingCapture(s)
  {
    if AllDigits(s) then Int(DecimalValue(s))
    else if |s| > 1 && s[0] == '-' && AllDigits(s[1..]) then Int(-(DecimalValue(s[1..]) as int))
    else NaN
  }

  /** Decimal text of a natural number, without leading zeros. */
  function NatToString(n: nat): (s: string)
    ensures s != [] && AllDigits(s)
  {
    if n < 10 then [DigitChar(n)] else NatToString(n / 10) + [DigitChar(n % 10)]
  }

  /** JavaScript's `${x}` for the numbers the script holds. */
  function NumToString(x: Num): string
  {
    match x
    case NaN => "NaN"
    case Int(n) => if n < 0 then "-" + NatToString(-n) else NatToString(n)
  }

  lemma {:induction false} DecimalOfNatToString(n: nat)
    ensures DecimalValue(NatToString(n)) == n
  {
    if n >= 10 {
      var s := NatToString(n);
      var init := NatToString(n / 10);
      assert s[..|s| - 1] == init;
      DecimalOfNatToString(n / 10);
    }
  }

  /** Writing an integer and reading it back with Number() gives it back. */
  lemma NumberRoundTrip(n: int)
    ensures IsRatingCapture(NumToString(Int(n)))
    ensures ToNumber(NumToString(Int(n))) == Int(n)
  {
    if n < 0 {
      var s := NumToString(Int(n));
      assert s[1..] == NatToString(-n);
      assert !IsDigit(s[0]);
      DecimalOfNatToString(-n);
    } else {
      DecimalOfNatToString(n);
    }
  }
}
