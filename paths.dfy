/** Text handling of the file repository: the white-space test behind
    `string.IsNullOrWhiteSpace`, lower-casing, path normalisation, the
    extension clean-up of `CreateTempFile` and the temporary-file path. */
module Paths {
  import opened Wrappers
  import opened Guids

  const FolderSeparator: string := "/"
  const TmpFolderName: string := "tmp"
  /** What the `ILIKE '%/tmp'` pattern asks a path to end with. */
  const TmpSuffix: string := FolderSeparator + TmpFolderName

  /** `char.IsWhiteSpace`: the Unicode space separators, the line and
      paragraph separators, and the control characters U+0009-U+000D, U+0085. */
  predicate IsWhiteSpace(c: char) {
    || '\t' <= c <= '\r'
    || c == ' '
    || c == '\U{0085}'
    || c == '\U{00A0}'
    || c == '\U{1680}'
    || '\U{2000}' <= c <= '\U{200A}'
    || c == '\U{2028}'
    || c == '\U{2029}'
    || c == '\U{202F}'
    || c == '\U{205F}'
    || c == '\U{3000}'
  }

  /** `string.IsNullOrWhiteSpace`. */
  predicate IsNullOrWhiteSpace(s: Option<string>) {
    s.None? || forall i :: 0 <= i < |s.value| ==> IsWhiteSpace(s.value[i])
  }

  function OrEmpty(s: Option<string>): string {
    if s.None? then "" else s.value
  }

  predicate IsUpper(c: char) {
    'A' <= c <= 'Z'
  }

  predicate HasNoUpper(s: string) {
    forall i :: 0 <= i < |s| ==> !IsUpper(s[i])
  }

  predicate StartsWith(s: string, prefix: string) {
    |prefix| <= |s| && s[..|prefix|] == prefix
  }

  predicate EndsWith(s: string, suffix: string) {
    |suffix| <= |s| && s[|s| - |suffix|..] == suffix
  }

  function LowerChar(c: char): (d: char)
    ensures !IsUpper(d)
    ensures !IsUpper(c) ==> d == c
    ensures IsUpper(c) ==> d as int == c as int + 32
  {
    if IsUpper(c) then (c as int + 32) as char else c
  }

  /** `ToLowerInvariant`, restricted to the ASCII letters. */
  function Lower(s: string): (r: string)
    ensures |r| == |s|
    ensures forall i :: 0 <= i < |s| ==> r[i] == LowerChar(s[i])
  {
    if s == [] then [] else [LowerChar(s[0])] + Lower(s[1..])
  }

  /** A path as the repository stores it: lower case, with a leading separator. */
  predicate IsCanonical(p: string) {
    StartsWith(p, FolderSeparator) && HasNoUpper(p)
  }

  /** The normalisation each repository operation applies to a caller's path:
      refuse a null or blank path, lower-case it, and put the separator in
      front when it is not there. No trimming takes place. */
  function Normalize(path: Option<string>): (r: Result<string>)
    ensures r.Err? <==> IsNullOrWhiteSpace(path)
    ensures r.Err? ==> r.error == InvalidArgument
    ensures r.Ok? ==> IsCanonical(r.value)
    ensures r.Ok? ==> EndsWith(r.value, Lower(path.value)) && |r.value| <= |path.value| + 1
  {
    if IsNullOrWhiteSpace(path) then Err(InvalidArgument)
    else
      var lowered := Lower(path.value);
      Ok(if StartsWith(lowered, FolderSeparator) then lowered else FolderSeparator + lowered)
  }

  /** Lower-casing a text whose head has no upper-case letter only touches its tail. */
  lemma LowerAfterLowerHead(head: string, tail: string)
    requires HasNoUpper(head)
    ensures Lower(head + tail) == head + Lower(tail)
  {
    var l := Lower(head + tail);
    forall i | 0 <= i < |l| ensures l[i] == (head + Lower(tail))[i] {
      if i < |head| {
        assert (head + tail)[i] == head[i];
      } else {
        assert (head + tail)[i] == tail[i - |head|];
      }
    }
  }

  lemma LowerOfNoUpper(s: string)
    requires HasNoUpper(s)
    ensures Lower(s) == s
  {
  }

  /** A path is left alone by the normalisation exactly when it is canonical. */
  lemma NormalizeFixesExactlyCanonical(p: string)
    ensures Normalize(Some(p)) == Ok(p) <==> IsCanonical(p)
  {
    if IsCanonical(p) {
      assert !IsWhiteSpace(p[0]);
      LowerOfNoUpper(p);
    }
  }

  /** Normalising twice is normalising once. */
  lemma NormalizeIdempotent(path: Option<string>)
    requires !IsNullOrWhiteSpace(path)
    ensures Normalize(Some(Normalize(path).value)) == Normalize(path)
  {
    NormalizeFixesExactlyCanonical(Normalize(path).value);
  }

  /** The filter value `FindAll` derives from its `startsWithPath`: nothing
      for a null or blank one, otherwise its normal form. */
  function StartsWithFilter(startsWithPath: Option<string>): (r: Option<string>)
    ensures r.None? <==> IsNullOrWhiteSpace(startsWithPath)
    ensures r.Some? ==> Normalize(startsWithPath) == Ok(r.value)
  {
    if IsNullOrWhiteSpace(startsWithPath) then None else Some(Normalize(startsWithPath).value)
  }

  /** The index of the first character of `s` from `i` on that is not white
      space, or `|s|` when there is none: where `TrimStart()` cuts. */
  function SkipWhiteSpace(s: string, i: nat): (n: nat)
    requires i <= |s|
    ensures i <= n <= |s|
    ensures forall k :: i <= k < n ==> IsWhiteSpace(s[k])
    ensures n < |s| ==> !IsWhiteSpace(s[n])
    decreases |s| - i
  {
    if i < |s| && IsWhiteSpace(s[i]) then SkipWhiteSpace(s, i + 1) else i
  }

  /** The index just past the last character of `s[i..j]` that is not white
      space, or `i` when there is none: where `TrimEnd()` cuts. */
  function BackOverWhiteSpace(s: string, i: nat, j: nat): (n: nat)
    requires i <= j <= |s|
    ensures i <= n <= j
    ensures forall k :: n <= k < j ==> IsWhiteSpace(s[k])
    ensures i < n ==> !IsWhiteSpace(s[n - 1])
    decreases j
  {
    if i < j && IsWhiteSpace(s[j - 1]) then BackOverWhiteSpace(s, i, j - 1) else j
  }

  /** How many white-space characters `Trim()` drops from the front of `s`. */
  function LeadingWhiteSpace(s: string): (n: nat)
    ensures n <= |s|
    ensures forall k :: 0 <= k < n ==> IsWhiteSpace(s[k])
    ensures n < |s| ==> !IsWhiteSpace(s[n])
  {
    SkipWhiteSpace(s, 0)
  }

  /** `Trim()`: drops white space at both ends. What is left is the stretch
      of `s` between white-space runs at its two ends; of a string that is not
      all white space, it starts and ends with a character that is not. */
  function Trim(s: string): (r: string)
    ensures !IsNullOrWhiteSpace(Some(s)) ==> r != [] && !IsWhiteSpace(r[0]) && !IsWhiteSpace(r[|r| - 1])
    ensures LeadingWhiteSpace(s) + |r| <= |s| && r == s[LeadingWhiteSpace(s)..LeadingWhiteSpace(s) + |r|]
    ensures forall k :: 0 <= k < LeadingWhiteSpace(s) ==> IsWhiteSpace(s[k])
    ensures forall k :: LeadingWhiteSpace(s) + |r| <= k < |s| ==> IsWhiteSpace(s[k])
  {
    var a := LeadingWhiteSpace(s);
    var b := BackOverWhiteSpace(s, a, |s|);
    assert !IsNullOrWhiteSpace(Some(s)) ==> a < b by {
      if !IsNullOrWhiteSpace(Some(s)) {
        var k :| 0 <= k < |s| && !IsWhiteSpace(s[k]);
        assert a <= k < b;
      }
    }
    s[a..b]
  }

  /** Character `j` of the trimmed text is character `j` past the leading white space. */
  lemma TrimmedChar(s: string, j: nat)
    requires j < |Trim(s)|
    ensures LeadingWhiteSpace(s) + j < |s| && Trim(s)[j] == s[LeadingWhiteSpace(s) + j]
  {
    var a := LeadingWhiteSpace(s);
    assert Trim(s)[j] == s[a..a + |Trim(s)|][j];
  }

  /** A text is blank exactly when trimming leaves nothing of it. */
  lemma BlankIffTrimsToNothing(s: string)
    ensures IsNullOrWhiteSpace(Some(s)) <==> Trim(s) == []
  {
    if Trim(s) == [] {
      forall k | 0 <= k < |s| ensures IsWhiteSpace(s[k]) {
        assert k < LeadingWhiteSpace(s) || LeadingWhiteSpace(s) <= k;
      }
    }
  }

  /** The extension `CreateTempFile` appends: a non-blank one is trimmed,
      lower-cased and given a leading dot; a null one adds nothing and a
      blank one is appended as it is. */
  function NormalizeExtension(extension: Option<string>): (r: string)
    ensures IsNullOrWhiteSpace(extension) ==> r == OrEmpty(extension)
    ensures !IsNullOrWhiteSpace(extension) ==>
      && StartsWith(r, ".") && HasNoUpper(r) && !IsWhiteSpace(r[|r| - 1])
      && EndsWith(r, Lower(Trim(extension.value)))
      && |r| <= |Trim(extension.value)| + 1
    ensures !IsNullOrWhiteSpace(extension) && StartsWith(Lower(Trim(extension.value)), ".") ==>
      r == Lower(Trim(extension.value))
  {
    if IsNullOrWhiteSpace(extension) then OrEmpty(extension)
    else
      var t := Trim(extension.value);
      Dotted(Lower(t))
  }

  /** `e`, given a leading dot unless it has one. */
  function Dotted(e: string): (r: string)
    ensures StartsWith(r, ".") && EndsWith(r, e) && |r| <= |e| + 1
    ensures StartsWith(e, ".") ==> r == e
    ensures HasNoUpper(e) ==> HasNoUpper(r)
    ensures e != [] ==> r[|r| - 1] == e[|e| - 1]
  {
    if StartsWith(e, ".") then e else "." + e
  }

  /** Every occurrence of `c` removed, as `Replace("-", "")` does for a hyphen. */
  function RemoveChar(s: string, c: char): (r: string)
    ensures forall i :: 0 <= i < |r| ==> r[i] != c
  {
    if s == [] then []
    else (if s[0] == c then [] else [s[0]]) + RemoveChar(s[1..], c)
  }

  /** The random folder `CreateTempFile` makes from a fresh Guid:
      `ToString().Replace("-", "").ToLowerInvariant()`. */
  function Section(g: Guid): (r: string)
    ensures r == Hex(g, 32)
  {
    HyphensDropped(g);
    Lower(RemoveChar(GuidText(g), '-'))
  }

  /** `/tmp/<section>/<filename><extension>`; a null file name or extension
      contributes nothing, and the trailing `?? string.Empty` never applies. */
  function TempPath(section: string, filename: Option<string>, extension: Option<string>): (r: string)
    ensures StartsWith(r, FolderSeparator)
    ensures EndsWith(r, OrEmpty(filename) + NormalizeExtension(extension))
    ensures |r| == |section| + |OrEmpty(filename) + NormalizeExtension(extension)| + 6
  {
    (FolderSeparator + TmpFolderName + FolderSeparator + section + FolderSeparator)
      + (OrEmpty(filename) + NormalizeExtension(extension))
  }

  lemma {:induction false} RemoveCharConcat(a: string, b: string, c: char)
    ensures RemoveChar(a + b, c) == RemoveChar(a, c) + RemoveChar(b, c)
  {
    if a == [] {
      assert a + b == b;
    } else {
      assert (a + b)[1..] == a[1..] + b;
      RemoveCharConcat(a[1..], b, c);
    }
  }

  lemma {:induction false} RemoveCharAbsent(s: string, c: char)
    requires forall i :: 0 <= i < |s| ==> s[i] != c
    ensures RemoveChar(s, c) == s
  {
    if s != [] {
      RemoveCharAbsent(s[1..], c);
    }
  }

  /** Removing hyphens from `x-y` where `y` has none keeps `y` whole. */
  lemma RemoveHyphenJoin(x: string, y: string)
    requires forall i :: 0 <= i < |y| ==> y[i] != '-'
    ensures RemoveChar(x + "-" + y, '-') == RemoveChar(x, '-') + y
  {
    assert RemoveChar(x + "-", '-') == RemoveChar(x, '-') by {
      RemoveCharConcat(x, "-", '-');
      assert RemoveChar("-", '-') == [];
    }
    assert RemoveChar(y, '-') == y by {
      RemoveCharAbsent(y, '-');
    }
    RemoveCharConcat(x + "-", y, '-');
  }

  /** A Guid's text with the hyphens removed, lower-cased, is its 32 hex digits. */
  lemma HyphensDropped(g: Guid)
    ensures Lower(RemoveChar(GuidText(g), '-')) == Hex(g, 32)
  {
    var h := Hex(g, 32);
    var a, b, c, d, e := h[..8], h[8..12], h[12..16], h[16..20], h[20..];
    RemoveCharAbsent(a, '-');
    RemoveHyphenJoin(a, b);
    RemoveHyphenJoin(a + "-" + b, c);
    RemoveHyphenJoin(a + "-" + b + "-" + c, d);
    RemoveHyphenJoin(a + "-" + b + "-" + c + "-" + d, e);
    assert a + b + c + d + e == h;
    LowerOfNoUpper(h);
  }

  /** The pattern's suffix is already in lower case. */
  lemma TmpSuffixIsLower()
    ensures Lower(TmpSuffix) == TmpSuffix
  {
    assert HasNoUpper(TmpSuffix) by {
      assert TmpSuffix == ['/', 't', 'm', 'p'];
    }
    LowerOfNoUpper(TmpSuffix);
  }

  /** A path that already starts with the separator normalises to its lower-case form. */
  lemma NormalizeRooted(p: string)
    requires StartsWith(p, FolderSeparator)
    ensures Normalize(Some(p)) == Ok(Lower(p))
  {
    assert !IsWhiteSpace(p[0]);
    assert Lower(p)[0] == '/';
  }

  /** A temporary path is `/tmp/`, the 32 hex digits of the Guid, a separator,
      then the file name and the normalised extension; `Find` looks it up
      lower-cased. */
  lemma TempPathShape(g: Guid, filename: Option<string>, extension: Option<string>)
    ensures TempPath(Section(g), filename, extension)
         == ("/tmp/" + Hex(g, 32) + "/") + (OrEmpty(filename) + NormalizeExtension(extension))
    ensures Normalize(Some(TempPath(Section(g), filename, extension)))
         == Ok(Lower(TempPath(Section(g), filename, extension)))
  {
    var p := TempPath(Section(g), filename, extension);
    assert FolderSeparator + TmpFolderName + FolderSeparator == "/tmp/";
    assert p[0] == '/';
    NormalizeRooted(p);
  }

  /** The normalised extension never holds a separator the caller did not give. */
  lemma ExtensionKeepsSeparatorsOut(extension: Option<string>)
    requires !IsNullOrWhiteSpace(extension)
    requires forall i :: 0 <= i < |extension.value| ==> extension.value[i] != '/'
    ensures forall i :: 0 <= i < |NormalizeExtension(extension)| ==> NormalizeExtension(extension)[i] != '/'
  {
    var x := extension.value;
    var t := Trim(x);
    var l := Lower(t);
    var e := NormalizeExtension(extension);
    assert e == Dotted(l);
    assert forall j :: 0 <= j < |l| ==> l[j] != '/' by {
      forall j | 0 <= j < |l| ensures l[j] != '/' {
        TrimmedChar(x, j);
      }
    }
    forall i | 0 <= i < |e| ensures e[i] != '/' {
      if !StartsWith(l, ".") && i > 0 {
        assert e[i] == l[i - 1];
      }
    }
  }

  /** A path ending in a dot-led text without separators does not end with `/tmp`. */
  lemma DottedEndIsNotTmp(p: string, e: string)
    requires EndsWith(p, e) && e != [] && e[0] == '.'
    requires forall i :: 0 <= i < |e| ==> e[i] != '/'
    ensures !EndsWith(Lower(p), TmpSuffix)
  {
    var n, l := |p|, Lower(p);
    var t := TmpSuffix;
    assert t[0] == '/' && t[1] == 't' && t[2] == 'm' && t[3] == 'p';
    if n >= 4 {
      var k := if |e| >= 4 then 0 else 4 - |e|;
      assert l[n - 4..][k] == l[n - 4 + k] == LowerChar(p[n - 4 + k]);
      assert p[n - 4 + k] == e[|e| - 4 + k];
      assert l[n - 4..][k] != t[k];
    }
  }

  /** A temporary file that has an extension without a separator in it does
      not end with `/tmp`, so the `%/tmp` pattern does not recognise it. */
  lemma TempFileEscapesTmpPattern(section: string, filename: Option<string>, extension: Option<string>)
    requires !IsNullOrWhiteSpace(extension)
    requires forall i :: 0 <= i < |extension.value| ==> extension.value[i] != '/'
    ensures !EndsWith(Lower(TempPath(section, filename, extension)), TmpSuffix)
  {
    var e := NormalizeExtension(extension);
    var prefix := FolderSeparator + TmpFolderName + FolderSeparator + section + FolderSeparator + OrEmpty(filename);
    assert TempPath(section, filename, extension) == prefix + e;
    ExtensionKeepsSeparatorsOut(extension);
    DottedEndIsNotTmp(prefix + e, e);
  }

  /** The temporary path, lower-cased: the prefix and the hex digits are
      lower case already. */
  lemma TempPathLowered(g: Guid, filename: Option<string>, extension: Option<string>)
    ensures Lower(TempPath(Section(g), filename, extension))
         == "/tmp/" + Hex(g, 32) + "/" + Lower(OrEmpty(filename) + NormalizeExtension(extension))
  {
    var h := Hex(g, 32);
    var head := "/tmp/" + h + "/";
    var tail := OrEmpty(filename) + NormalizeExtension(extension);
    var p := TempPath(Section(g), filename, extension);
    assert p == head + tail by {
      TempPathShape(g, filename, extension);
    }
    assert HasNoUpper(head) by {
      HeadHasNoUpper(h);
    }
    LowerAfterLowerHead(head, tail);
  }

  /** The directory part of a temporary path has no upper-case letter. */
  lemma HeadHasNoUpper(h: string)
    requires forall i :: 0 <= i < |h| ==> IsHexDigit(h[i])
    ensures HasNoUpper("/tmp/" + h + "/")
  {
    var prefix := "/tmp/";
    var head := prefix + h + "/";
    forall i | 0 <= i < |head| ensures !IsUpper(head[i]) {
      if i < |prefix| {
        assert head[i] == prefix[i];
        assert i == 0 || i == 1 || i == 2 || i == 3 || i == 4;
      } else if i < |prefix| + |h| {
        assert head[i] == h[i - |prefix|];
      } else {
        assert head[i] == '/';
      }
    }
  }
}
