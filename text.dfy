/** The few .NET string operations the catalog relies on: Char.IsWhiteSpace,
    String.IsNullOrWhiteSpace, Trim()/TrimEnd('\0') as applied to every parsed
    text field, and Path.GetFileNameWithoutExtension (Windows separators).
    A C# null string is modelled as the empty string: both are "null or white space". */
module Text {

  /** Char.IsWhiteSpace: the Unicode space, line and paragraph separators plus
      the control characters U+0009..U+000D and U+0085. */
  predicate IsWhiteSpace(c: char) {
    ('\U{9}' <= c <= '\U{D}') || c == ' ' || c == '\U{85}' || c == '\U{A0}' || c == '\U{1680}'
    || ('\U{2000}' <= c <= '\U{200A}') || c == '\U{2028}' || c == '\U{2029}'
    || c == '\U{202F}' || c == '\U{205F}' || c == '\U{3000}'
  }

  /** String.IsNullOrWhiteSpace on a non-null string. */
  predicate IsNullOrWhiteSpace(s: string) {
    forall i :: 0 <= i < |s| ==> IsWhiteSpace(s[i])
  }

  /** Removes the longest prefix whose characters all satisfy `drop`. */
  function TrimStartWhere(s: string, drop: char -> bool): (r: string)
    ensures |r| <= |s|
  {
    if s != [] && drop(s[0]) then TrimStartWhere(s[1..], drop) else s
  }

  /** What is left is a suffix; everything removed satisfies `drop`, and the
      first character left does not. */
  lemma {:induction false} TrimStartWhereSpec(s: string, drop: char -> bool)
    ensures var r := TrimStartWhere(s, drop);
      && r == s[|s| - |r|..]
      && (forall i :: 0 <= i < |s| - |r| ==> drop(s[i]))
      && (r == [] || !drop(r[0]))
  {
    if s != [] && drop(s[0]) {
      TrimStartWhereSpec(s[1..], drop);
      var r := TrimStartWhere(s, drop);
      forall i | 0 < i < |s| - |r| ensures drop(s[i]) {
        assert s[i] == s[1..][i - 1];
      }
    }
  }

  /** Removes the longest suffix whose characters all satisfy `drop`. */
  function TrimEndWhere(s: string, drop: char -> bool): (r: string)
    ensures |r| <= |s|
  {
    if s != [] && drop(s[|s| - 1]) then TrimEndWhere(s[..|s| - 1], drop) else s
  }

  /** What is left is a prefix; everything removed satisfies `drop`, and the
      last character left does not. */
  lemma {:induction false} TrimEndWhereSpec(s: string, drop: char -> bool)
    ensures var r := TrimEndWhere(s, drop);
      && r == s[..|r|]
      && (forall i :: |r| <= i < |s| ==> drop(s[i]))
      && (r == [] || !drop(r[|r| - 1]))
  {
    if s != [] && drop(s[|s| - 1]) {
      TrimEndWhereSpec(s[..|s| - 1], drop);
    }
  }

  /** String.Trim(): white space removed at both ends. */
  function Trim(s: string): string {
    TrimEndWhere(TrimStartWhere(s, IsWhiteSpace), IsWhiteSpace)
  }

  predicate IsNul(c: char) { c == '\0' }

  /** `text.Trim().TrimEnd('\0')`, the clean-up applied to each text field the
      header parser reports. */
  function CleanField(s: string): string {
    TrimEndWhere(Trim(s), IsNul)
  }

  /** A cleaned field is blank only when it is empty: its first character is
      never white space. */
  lemma CleanFieldBlankIffEmpty(s: string)
    ensures IsNullOrWhiteSpace(CleanField(s)) <==> CleanField(s) == []
  {
    var t := TrimStartWhere(s, IsWhiteSpace);
    var u := TrimEndWhere(t, IsWhiteSpace);
    var v := TrimEndWhere(u, IsNul);
    TrimStartWhereSpec(s, IsWhiteSpace);
    TrimEndWhereSpec(t, IsWhiteSpace);
    TrimEndWhereSpec(u, IsNul);
    if v != [] {
      assert v[0] == u[0] == t[0];
      assert !IsWhiteSpace(v[0]);
    }
  }

  /** Directory and volume separators recognised by System.IO.Path on Windows. */
  predicate IsSeparator(c: char) {
    c == '\\' || c == '/' || c == ':'
  }

  /** Path.GetFileName: the text after the last separator. */
  function FileName(path: string): (r: string)
    ensures |r| <= |path|
  {
    if path == [] then []
    else if IsSeparator(path[|path| - 1]) then []
    else FileName(path[..|path| - 1]) + [path[|path| - 1]]
  }

  /** The part of a file name before its last '.', or the whole name when it has none. */
  function WithoutExtension(name: string): (r: string)
    ensures |r| <= |name|
  {
    if name == [] then []
    else if name[|name| - 1] == '.' then name[..|name| - 1]
    else
      var stem := WithoutExtension(name[..|name| - 1]);
      if |stem| == |name| - 1 then name else stem
  }

  /** The file name is the suffix after the last separator. */
  lemma {:induction false} FileNameSpec(path: string)
    ensures var r := FileName(path);
      && r == path[|path| - |r|..]
      && (forall i :: 0 <= i < |r| ==> !IsSeparator(r[i]))
      && (|r| < |path| ==> IsSeparator(path[|path| - |r| - 1]))
  {
    if path != [] && !IsSeparator(path[|path| - 1]) {
      var init := path[..|path| - 1];
      FileNameSpec(init);
      var r := FileName(path);
      assert r == FileName(init) + [path[|path| - 1]];
    }
  }

  /** Without its extension a name keeps everything before its last '.';
      a name without a '.' is kept whole. */
  lemma {:induction false} WithoutExtensionSpec(name: string)
    ensures var r := WithoutExtension(name);
      && r == name[..|r|]
      && (|r| < |name| ==> name[|r|] == '.' && forall i :: |r| < i < |name| ==> name[i] != '.')
      && (|r| == |name| ==> forall i :: 0 <= i < |name| ==> name[i] != '.')
  {
    if name != [] && name[|name| - 1] != '.' {
      WithoutExtensionSpec(name[..|name| - 1]);
    }
  }

  /** Path.GetFileNameWithoutExtension. */
  function FileNameWithoutExtension(path: string): string {
    WithoutExtension(FileName(path))
  }

  /** The file name of `dir + separator + name` is `name`, whatever `dir` is. */
  lemma {:induction false} FileNameOfJoin(dir: string, sep: char, name: string)
    requires IsSeparator(sep)
    requires forall i :: 0 <= i < |name| ==> !IsSeparator(name[i])
    ensures FileName(dir + [sep] + name) == name
  {
    var p := dir + [sep] + name;
    if name == [] {
      assert p[|p| - 1] == sep;
    } else {
      var n' := name[..|name| - 1];
      assert p[..|p| - 1] == dir + [sep] + n';
      FileNameOfJoin(dir, sep, n');
      assert name == n' + [name[|name| - 1]];
    }
  }
}
