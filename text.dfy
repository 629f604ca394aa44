/**
  The string handling the inventory pages apply to what the user types:
  Python's `str.strip()` and `str.upper()` on scanned codes, and the
  `"code - material"` label of the management page with the `split(" - ")[0]`
  that recovers the code from it.
 */
module Text {
  import opened Wrappers

  /** The characters Python's `str.isspace()` accepts, which `str.strip()` removes. */
  predicate IsSpace(c: char) {
    c == ' ' || ('\t' <= c <= '\r') || ('\U{1C}' <= c <= '\U{1F}')
    || c == '\U{85}' || c == '\U{A0}' || c == '\U{1680}'
    || ('\U{2000}' <= c <= '\U{200A}') || c == '\U{2028}' || c == '\U{2029}'
    || c == '\U{202F}' || c == '\U{205F}' || c == '\U{3000}'
  }

  predicate IsAsciiLower(c: char) {
    'a' <= c <= 'z'
  }

  /** Upper-case mapping of one character, for ASCII and the Latin-1 letters. */
  function UpperChar(c: char): (u: char)
    ensures !IsAsciiLower(u)
    ensures IsSpace(u) == IsSpace(c)
  {
    if IsAsciiLower(c) then (c as int - 32) as char
    else if '\U{E0}' <= c <= '\U{FE}' && c != '\U{F7}' then (c as int - 32) as char
    else if c == '\U{FF}' then '\U{178}'
    else if c == '\U{B5}' then '\U{39C}'
    else c
  }

  /** `s.upper()`: every character mapped on its own, length kept. */
  function Upper(s: string): (r: string)
    ensures |r| == |s|
    ensures forall i :: 0 <= i < |s| ==> r[i] == UpperChar(s[i])
  {
    if s == [] then [] else [UpperChar(s[0])] + Upper(s[1..])
  }

  /** `s.lstrip()`: drops the longest all-whitespace prefix. */
  function TrimLeft(s: string): (r: string)
    ensures |r| <= |s| && r == s[|s| - |r|..]
    ensures forall i :: 0 <= i < |s| - |r| ==> IsSpace(s[i])
    ensures r == [] || !IsSpace(r[0])
  {
    if s != [] && IsSpace(s[0]) then
      var r := TrimLeft(s[1..]);
      assert forall i :: 1 <= i < |s| - |r| ==> s[i] == s[1..][i - 1];
      r
    else s
  }

  /** `s.rstrip()`: drops the longest all-whitespace suffix. */
  function TrimRight(s: string): (r: string)
    ensures |r| <= |s| && r == s[..|r|]
    ensures forall i :: |r| <= i < |s| ==> IsSpace(s[i])
    ensures r == [] || !IsSpace(r[|r| - 1])
  {
    if s != [] && IsSpace(s[|s| - 1]) then
      var r := TrimRight(s[..|s| - 1]);
      assert forall i :: |r| <= i < |s| - 1 ==> s[i] == s[..|s| - 1][i];
      r
    else s
  }

  /**
    `s.strip()`: the slice of `s` left once its whitespace ends are cut off;
    no whitespace is left at either end, and only a blank input strips to "".
   */
  function Strip(s: string): (r: string)
    ensures |r| <= |s|
    ensures exists a, b :: (0 <= a <= b <= |s| && r == s[a..b]
      && (forall i :: 0 <= i < a ==> IsSpace(s[i])) && (forall i :: b <= i < |s| ==> IsSpace(s[i])))
    ensures r != [] ==> !IsSpace(r[0]) && !IsSpace(r[|r| - 1])
    ensures r == [] <==> forall i :: 0 <= i < |s| ==> IsSpace(s[i])
  {
    StripEnds(s);
    TrimRight(TrimLeft(s))
  }

  lemma StripEnds(s: string)
    ensures var r := TrimRight(TrimLeft(s));
      (exists a, b :: 0 <= a <= b <= |s| && r == s[a..b]
        && (forall i :: 0 <= i < a ==> IsSpace(s[i])) && (forall i :: b <= i < |s| ==> IsSpace(s[i])))
      && (r != [] ==> !IsSpace(r[0]) && !IsSpace(r[|r| - 1]))
      && (r == [] <==> forall i :: 0 <= i < |s| ==> IsSpace(s[i]))
  {
    var t := TrimLeft(s);
    var r := TrimRight(t);
    var a := |s| - |t|;
    var b := a + |r|;
    assert r == s[a..b];
    forall i | b <= i < |s| ensures IsSpace(s[i]) {
      assert s[i] == t[i - a];
    }
    if r != [] {
      assert r[0] == t[0];
      assert s[|s| - |t|] == t[0];
    }
  }

  /** `s.strip().upper()`: how the entry and withdrawal pages normalise a scanned or typed code. */
  function Normalize(s: string): (r: string)
    ensures |r| <= |s|
    ensures exists a, b :: (0 <= a <= b <= |s| && r == Upper(s[a..b])
      && (forall i :: 0 <= i < a ==> IsSpace(s[i])) && (forall i :: b <= i < |s| ==> IsSpace(s[i])))
    ensures r == [] <==> forall i :: 0 <= i < |s| ==> IsSpace(s[i])
    ensures forall i :: 0 <= i < |r| ==> !IsAsciiLower(r[i])
    ensures r != [] ==> !IsSpace(r[0]) && !IsSpace(r[|r| - 1])
  {
    Upper(Strip(s))
  }

  lemma StripFixes(s: string)
    requires s != [] ==> !IsSpace(s[0]) && !IsSpace(s[|s| - 1])
    ensures Strip(s) == s
  {
  }

  /** Upper-casing twice is upper-casing once. */
  lemma UpperCharIdempotent(c: char)
    ensures UpperChar(UpperChar(c)) == UpperChar(c)
  {
  }

  lemma UpperIdempotent(s: string)
    ensures Upper(Upper(s)) == Upper(s)
  {
    forall i | 0 <= i < |s| ensures Upper(Upper(s))[i] == Upper(s)[i] {
      UpperCharIdempotent(s[i]);
    }
  }

  /** Normalising an already normalised code changes nothing. */
  lemma NormalizeIdempotent(s: string)
    ensures Normalize(Normalize(s)) == Normalize(s)
  {
    var n := Normalize(s);
    StripFixes(n);
    UpperIdempotent(Strip(s));
  }

  /** `sel.split(" - ")[0]`'s separator. */
  const Separator: string := " - "

  predicate SeparatorAt(s: string, i: nat) {
    i + |Separator| <= |s| && s[i..i + |Separator|] == Separator
  }

  /** The first position at or after `from` where the separator starts, as `str.find` scans. */
  function FindSeparator(s: string, from: nat): (r: Option<nat>)
    requires from <= |s|
    decreases |s| - from
    ensures r.Some? ==> from <= r.value && SeparatorAt(s, r.value)
    ensures r.Some? ==> forall j :: from <= j < r.value ==> !SeparatorAt(s, j)
    ensures r.None? ==> forall j :: from <= j ==> !SeparatorAt(s, j)
  {
    if from + |Separator| > |s| then None
    else if SeparatorAt(s, from) then Some(from)
    else FindSeparator(s, from + 1)
  }

  /** The text shown for one catalog row in the management selectbox. */
  function Label(code: string, material: string): (l: string)
    ensures |l| == |code| + |Separator| + |material|
    ensures l[..|code|] == code && SeparatorAt(l, |code|) && l[|code| + |Separator|..] == material
  {
    code + Separator + material
  }

  /** `sel.split(" - ")[0]`: the text before the first separator, or all of it when there is none. */
  function BeforeSeparator(sel: string): (r: string)
    ensures r <= sel
    ensures r == sel <==> forall j :: !SeparatorAt(sel, j)
    ensures forall j :: !SeparatorAt(r, j)
    ensures r != sel ==> SeparatorAt(sel, |r|)
    ensures forall j: nat :: j < |r| ==> !SeparatorAt(sel, j)
  {
    match FindSeparator(sel, 0)
    case None => sel
    case Some(i) =>
      assert forall j: nat :: SeparatorAt(sel[..i], j) ==> SeparatorAt(sel, j) by {
        forall j: nat | SeparatorAt(sel[..i], j) ensures SeparatorAt(sel, j) {
          assert sel[..i][j..j + |Separator|] == sel[j..j + |Separator|];
        }
      }
      sel[..i]
  }

  /**
    The split recovers the code from its label when the code holds no separator
    and does not end with " -" (whose dash and the separator's leading space
    would otherwise form an earlier separator).
   */
  lemma LabelRoundTrip(code: string, material: string)
    requires forall j: nat :: !SeparatorAt(code, j)
    requires !(|code| >= 2 && code[|code| - 2..] == " -")
    ensures BeforeSeparator(Label(code, material)) == code
  {
    var sel := Label(code, material);
    var n := |code|;
    assert sel[n..n + 3] == Separator;
    assert SeparatorAt(sel, n);
    forall j: nat | j < n ensures !SeparatorAt(sel, j) {
      NoSeparatorBeforeCodeEnd(code, material, j);
    }
    var found := FindSeparator(sel, 0);
    assert found.Some? && found.value <= n;
    assert found == Some(n);
    assert sel[..n] == code;
  }

  lemma NoSeparatorBeforeCodeEnd(code: string, material: string, j: nat)
    requires forall j: nat :: !SeparatorAt(code, j)
    requires !(|code| >= 2 && code[|code| - 2..] == " -")
    requires j < |code|
    ensures !SeparatorAt(Label(code, material), j)
  {
    var sel := Label(code, material);
    var n := |code|;
    if j + 3 <= n {
      assert sel[j..j + 3] == code[j..j + 3];
      assert !SeparatorAt(code, j);
    } else if j == n - 2 {
      assert sel[j..j + 2] == code[n - 2..];
      assert sel[j..j + 3][..2] == sel[j..j + 2];
      assert Separator[..2] == " -";
    } else if j + 3 <= |sel| {
      assert sel[j..j + 3][1] == sel[n] == ' ';
    }
  }

  /** A code ending in " -" loses its last two characters in the split. */
  lemma LabelSplitTruncatesTrailingDash()
    ensures BeforeSeparator(Label("A -", "LUVA")) == "A"
  {
    var sel := Label("A -", "LUVA");
    assert sel[1..4] == Separator;
    assert sel[0] == 'A';
    assert FindSeparator(sel, 1) == Some(1);
  }
}
