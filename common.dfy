/** Small value types and string helpers shared by every module of the model. */
module Common {

  /** An optional value: an absent attribute, a missing query parameter, `None`. */
  datatype Option<+T> = None | Some(value: T) {

    /** The value, or `default` when there is none. */
    function GetOr(default: T): T {
      match this
      case Some(v) => v
      case None => default
    }
  }

  /** A document's metadata: a dictionary of strings. */
  type Metadata = map<string, string>

  /** Python's `d.get(key, default)` on a dictionary. */
  function DictGet<K, V>(d: map<K, V>, key: K, default: V): (v: V)
    ensures key in d ==> v == d[key]
    ensures key !in d ==> v == default
  {
    if key in d then d[key] else default
  }

  /** `s` with its leading characters in `isSpace` removed. */
  function TrimStart(s: string, isSpace: char -> bool): (r: string)
    ensures |r| <= |s| && r == s[|s| - |r|..]
    ensures forall i | 0 <= i < |s| - |r| :: isSpace(s[i])
    ensures r == [] || !isSpace(r[0])
  {
    if s != [] && isSpace(s[0]) then TrimStart(s[1..], isSpace) else s
  }

  /** `s` with its trailing characters in `isSpace` removed. */
  function TrimEnd(s: string, isSpace: char -> bool): (r: string)
    ensures |r| <= |s| && r == s[..|r|]
    ensures forall i | |r| <= i < |s| :: isSpace(s[i])
    ensures r == [] || !isSpace(r[|r| - 1])
  {
    if s != [] && isSpace(s[|s| - 1]) then TrimEnd(s[..|s| - 1], isSpace) else s
  }

  /** `s.strip()` / `s.trim()` for the whitespace set `isSpace`: both ends trimmed. */
  function Strip(s: string, isSpace: char -> bool): string {
    TrimEnd(TrimStart(s, isSpace), isSpace)
  }

  /**
   * What stripping keeps: the slice of `s` starting after the leading
   * whitespace, everything cut off on either side being whitespace.
   */
  lemma StripIsInnerSlice(s: string, isSpace: char -> bool)
    ensures var r := Strip(s, isSpace);
      var i := |s| - |TrimStart(s, isSpace)|;
      && i + |r| <= |s| && r == s[i..i + |r|]
      && (forall k | 0 <= k < i :: isSpace(s[k]))
      && (forall k | i + |r| <= k < |s| :: isSpace(s[k]))
  {
    var t := TrimStart(s, isSpace);
    var r := TrimEnd(t, isSpace);
    var i := |s| - |t|;
    assert t == s[i..];
    assert r == s[i..][..|r|] == s[i..i + |r|];
    forall k | i + |r| <= k < |s|
      ensures isSpace(s[k])
    {
      assert s[k] == t[k - i];
    }
  }

  /** What stripping keeps neither starts nor ends with whitespace. */
  lemma StripEndsAreNotSpace(s: string, isSpace: char -> bool)
    ensures var r := Strip(s, isSpace); r == [] || (!isSpace(r[0]) && !isSpace(r[|r| - 1]))
  {
    var t := TrimStart(s, isSpace);
    var r := TrimEnd(t, isSpace);
    if r != [] {
      assert r[0] == t[0];
    }
  }

  /** Stripping leaves nothing exactly when every character is whitespace. */
  lemma StripEmptyExactlyWhenAllSpace(s: string, isSpace: char -> bool)
    ensures Strip(s, isSpace) == [] <==> forall i | 0 <= i < |s| :: isSpace(s[i])
  {
    StripIsInnerSlice(s, isSpace);
  }
}
