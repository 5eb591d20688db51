/** Label trimming and validation shared by project and task creation
    (`saveProject`, `saveTask`). */
module Labels {

  import opened Wrappers

  /** Longest label the tracker accepts, in characters. */
  const NameLimit: nat := 50

  /** The characters JavaScript's `String.prototype.trim` removes: the
      WhiteSpace and LineTerminator code points of ECMAScript. */
  predicate IsJsWhitespace(c: char) {
    || c == '\t' || c == '\n' || c == '\U{B}' || c == '\U{C}' || c == '\r'
    || c == ' ' || c == '\U{A0}' || c == '\U{1680}'
    || c == '\U{2000}' || c == '\U{2001}' || c == '\U{2002}' || c == '\U{2003}'
    || c == '\U{2004}' || c == '\U{2005}' || c == '\U{2006}' || c == '\U{2007}'
    || c == '\U{2008}' || c == '\U{2009}' || c == '\U{200A}'
    || c == '\U{2028}' || c == '\U{2029}' || c == '\U{202F}' || c == '\U{205F}'
    || c == '\U{3000}' || c == '\U{FEFF}'
  }

  predicate AllWhitespace(s: string) {
    forall i :: 0 <= i < |s| ==> IsJsWhitespace(s[i])
  }

  /** Drops leading whitespace: `s` is a run of whitespace followed by the
      result, which does not start with whitespace. */
  function TrimStart(s: string): (r: string)
    ensures |r| <= |s| && s == s[..|s| - |r|] + r
    ensures AllWhitespace(s[..|s| - |r|])
    ensures r == [] || !IsJsWhitespace(r[0])
  {
    if s != [] && IsJsWhitespace(s[0]) then
      var r := TrimStart(s[1..]);
      var k := |s| - |r|;
      assert s[1..] == s[1..][..k - 1] + r;
      assert s[..k] == [s[0]] + s[1..][..k - 1];
      r
    else s
  }

  /** Drops trailing whitespace: `s` is the result followed by a run of
      whitespace, and the result does not end with whitespace. */
  function TrimEnd(s: string): (r: string)
    ensures |r| <= |s| && s == r + s[|r|..]
    ensures AllWhitespace(s[|r|..])
    ensures r == [] || !IsJsWhitespace(r[|r| - 1])
  {
    if s != [] && IsJsWhitespace(s[|s| - 1]) then
      var init := s[..|s| - 1];
      var r := TrimEnd(init);
      assert init == r + init[|r|..];
      assert s[|r|..] == init[|r|..] + [s[|s| - 1]];
      r
    else s
  }

  /** `s.trim()`: what is left of `s` between a run of leading and a run of
      trailing whitespace, and it neither starts nor ends with whitespace.
      It is empty exactly when `s` is all whitespace. */
  function Trim(s: string): (r: string)
    ensures exists pre, post :: s == pre + r + post && AllWhitespace(pre) && AllWhitespace(post)
    ensures r != [] ==> !IsJsWhitespace(r[0]) && !IsJsWhitespace(r[|r| - 1])
    ensures r == [] <==> AllWhitespace(s)
  {
    var t := TrimStart(s);
    var r := TrimEnd(t);
    var pre, post := s[..|s| - |t|], t[|r|..];
    TrimPieces(s, pre, t, r, post);
    r
  }

  /** The whitespace runs `Trim` cuts off, exhibited. */
  lemma TrimPieces(s: string, pre: string, t: string, r: string, post: string)
    requires s == pre + t && AllWhitespace(pre) && (t == [] || !IsJsWhitespace(t[0]))
    requires t == r + post && AllWhitespace(post)
    ensures s == pre + r + post
    ensures r != [] ==> r[0] == t[0]
    ensures r == [] <==> AllWhitespace(s)
  {
    assert pre + r + post == pre + (r + post);
    if r == [] {
      assert t == post;
      assert s == pre;
    } else {
      assert s[|pre|] == t[0];
    }
  }

  /** A string that neither starts nor ends with whitespace is its own
      trim. */
  lemma TrimUntouched(s: string)
    requires s != [] && !IsJsWhitespace(s[0]) && !IsJsWhitespace(s[|s| - 1])
    ensures Trim(s) == s
  {
    assert TrimStart(s) == s;
    assert TrimEnd(s) == s;
  }

  /** Trimming twice is trimming once. */
  lemma TrimIdempotent(s: string)
    ensures Trim(Trim(s)) == Trim(s)
  {
    var t := Trim(s);
    if t != [] {
      assert TrimStart(t) == t;
      assert TrimEnd(t) == t;
    }
  }

  /** Why a label was refused. */
  datatype LabelError = EmptyLabel | LabelTooLong

  /** The label check of project and task creation: the trimmed input is
      accepted when it has 1 to `NameLimit` characters; an all-whitespace
      input is refused as empty and a longer one as too long. */
  function ValidateLabel(raw: string): (r: Result<string, LabelError>)
    ensures r.Ok? <==> 1 <= |Trim(raw)| <= NameLimit
    ensures r.Ok? ==> r.value == Trim(raw)
    ensures r == Err(EmptyLabel) <==> AllWhitespace(raw)
    ensures r == Err(LabelTooLong) <==> |Trim(raw)| > NameLimit
  {
    var trimmed := Trim(raw);
    if trimmed == [] then Err(EmptyLabel)
    else if |trimmed| > NameLimit then Err(LabelTooLong)
    else Ok(trimmed)
  }

  /** An accepted label is already trimmed: validating it again accepts it
      unchanged. */
  lemma AcceptedLabelIsStable(raw: string)
    requires ValidateLabel(raw).Ok?
    ensures ValidateLabel(ValidateLabel(raw).value) == ValidateLabel(raw)
  {
    TrimIdempotent(raw);
  }
}
