/** The input handling of `processColors`: read the textarea into hex codes,
    reject the request when there are none, when any of them is malformed or
    when the cluster count is out of range, and otherwise hand the codes and
    the count to the clustering stage. */
module HexInput {
  import opened Wrappers
  import opened Text

  // ---------------------------------------------------------------------------
  // isValidHexCode
  // ---------------------------------------------------------------------------

  /** The character class `[0-9A-Fa-f]`. */
  predicate IsHexDigit(c: char)
  {
    ('0' <= c <= '9') || ('a' <= c <= 'f') || ('A' <= c <= 'F')
  }

  /** The class holds exactly the 22 characters it lists. */
  lemma HexDigitClass(c: char)
    ensures IsHexDigit(c) <==> c in "0123456789abcdefABCDEF"
  {
  }

  /** `s` matches `[0-9A-Fa-f]{n}$`: exactly `n` hex digits and nothing else. */
  function HexDigitsThenEnd(s: string, n: nat): (ok: bool)
    ensures ok <==> |s| == n && forall i {:trigger IsHexDigit(s[i])} :: 0 <= i < |s| ==> IsHexDigit(s[i])
    decreases n
  {
    if n == 0 then s == []
    else s != [] && IsHexDigit(s[0]) && HexDigitsThenEnd(s[1..], n - 1)
  }

  /** `isValidHexCode`: the test `/^#[0-9A-Fa-f]{6}$/` anchored at both ends
      (without the multiline flag `$` matches only at the end of the input). */
  function IsValidHexCode(hexCode: string): (ok: bool)
    ensures ok <==>
      |hexCode| == 7 && hexCode[0] == '#'
      && forall i {:trigger IsHexDigit(hexCode[i])} :: 1 <= i < 7 ==> IsHexDigit(hexCode[i])
  {
    |hexCode| >= 1 && hexCode[0] == '#' && HexDigitsThenEnd(hexCode[1..], 6)
  }

  predicate AllValid(codes: seq<string>)
  {
    forall i :: 0 <= i < |codes| ==> IsValidHexCode(codes[i])
  }

  // ---------------------------------------------------------------------------
  // tokenising: hexInput.split('\n').map(code => code.trim()).filter(code => code !== '')
  // ---------------------------------------------------------------------------

  /** `.map(code => code.trim())`: one trimmed string per line. */
  function TrimAll(lines: seq<string>): (r: seq<string>)
    ensures |r| == |lines|
    ensures forall i :: 0 <= i < |r| ==> IsTrimmed(r[i]) && |r[i]| <= |lines[i]|
  {
    seq(|lines|, i requires 0 <= i < |lines| => Trim(lines[i]))
  }

  /** `.filter(code => code !== '')`. */
  function DropEmpty(codes: seq<string>): (r: seq<string>)
    ensures |r| <= |codes|
    ensures forall x :: x in r ==> x in codes && x != []
  {
    if codes == [] then []
    else (if codes[0] == [] then [] else [codes[0]]) + DropEmpty(codes[1..])
  }

  /** The filter keeps exactly the non-empty strings. */
  lemma {:induction false} DropEmptyMembers(codes: seq<string>, x: string)
    ensures x in DropEmpty(codes) <==> x in codes && x != []
    decreases |codes|
  {
    if codes != [] {
      DropEmptyMembers(codes[1..], x);
      assert codes == [codes[0]] + codes[1..];
    }
  }

  lemma {:induction false} DropEmptyAppend(a: seq<string>, b: seq<string>)
    ensures DropEmpty(a + b) == DropEmpty(a) + DropEmpty(b)
    decreases |a|
  {
    if a != [] {
      assert (a + b)[1..] == a[1..] + b;
      DropEmptyAppend(a[1..], b);
    } else {
      assert a + b == b;
    }
  }

  /** The hex codes read from the textarea: its lines, trimmed, with the
      blank ones dropped. No token is empty, none starts or ends with
      whitespace and none spans a line break. */
  function Tokenize(hexInput: string): (hexcodes: seq<string>)
    ensures forall code :: code in hexcodes ==> code != [] && IsTrimmed(code) && '\n' !in code
  {
    var lines := Split(hexInput, '\n');
    SplitOmitsSeparator(hexInput, '\n');
    TrimAllKeepsOut(lines, '\n');
    DropEmpty(TrimAll(lines))
  }

  /** Trimming every line keeps a character that no line holds out of the result. */
  lemma TrimAllKeepsOut(lines: seq<string>, ch: char)
    requires forall p :: p in lines ==> ch !in p
    ensures forall t :: t in TrimAll(lines) ==> ch !in t && IsTrimmed(t)
  {
    forall t | t in TrimAll(lines) ensures ch !in t {
      var j :| 0 <= j < |lines| && TrimAll(lines)[j] == t;
      assert lines[j] in lines;
      TrimKeepsOut(lines[j], ch);
    }
  }

  /** A line break separates tokens: the tokens of two lines joined by `'\n'`
      are the tokens of the first followed by those of the second. */
  lemma TokenizeLines(a: string, b: string)
    ensures Tokenize(a + "\n" + b) == Tokenize(a) + Tokenize(b)
  {
    SplitAppend(a, '\n', b);
    var la, lb := Split(a, '\n'), Split(b, '\n');
    TrimAllAppend(la, lb);
    DropEmptyAppend(TrimAll(la), TrimAll(lb));
  }

  lemma TrimAllAppend(la: seq<string>, lb: seq<string>)
    ensures TrimAll(la + lb) == TrimAll(la) + TrimAll(lb)
  {
  }

  /** A valid code is left alone by `trim`: none of its characters is
      whitespace. */
  lemma TrimKeepsValidCode(code: string)
    requires IsValidHexCode(code)
    ensures Trim(code) == code
  {
    assert !IsWhitespace(code[0]) && !IsWhitespace(code[6]) by {
      assert IsHexDigit(code[6]);
    }
    assert [] + code + [] == code;
    TrimUnique([], code, []);
  }

  /** Text made of lines gives exactly those lines, trimmed, with the blank
      ones dropped, in their order. */
  lemma TokenizeJoinedLines(lines: seq<string>)
    requires |lines| >= 1
    requires forall i :: 0 <= i < |lines| ==> '\n' !in lines[i]
    ensures Tokenize(Join(lines, "\n")) == DropEmpty(TrimAll(lines))
  {
    SplitJoin(lines, '\n');
  }

  /** A single line gives its trimmed text, or nothing when it is blank. */
  lemma TokenizeLine(line: string)
    requires '\n' !in line
    ensures Tokenize(line) == if Trim(line) == [] then [] else [Trim(line)]
  {
    SplitNoSeparator(line, '\n');
    assert TrimAll([line]) == [Trim(line)];
  }

  // ---------------------------------------------------------------------------
  // invalidHexcodes: hexcodes.filter(code => !isValidHexCode(code))
  // ---------------------------------------------------------------------------

  /** The codes that fail `isValidHexCode`, in input order. */
  function InvalidCodes(hexcodes: seq<string>): (invalid: seq<string>)
    ensures |invalid| <= |hexcodes|
    ensures forall i :: 0 <= i < |invalid| ==> !IsValidHexCode(invalid[i])
  {
    if hexcodes == [] then []
    else
      var head := if IsValidHexCode(hexcodes[0]) then [] else [hexcodes[0]];
      head + InvalidCodes(hexcodes[1..])
  }

  /** The filter keeps input order: filtering a concatenation concatenates
      the filtered parts. */
  lemma {:induction false} InvalidCodesAppend(a: seq<string>, b: seq<string>)
    ensures InvalidCodes(a + b) == InvalidCodes(a) + InvalidCodes(b)
    decreases |a|
  {
    if a != [] {
      assert (a + b)[1..] == a[1..] + b;
      InvalidCodesAppend(a[1..], b);
    } else {
      assert a + b == b;
    }
  }

  /** Exactly the invalid codes are collected: a code is reported iff it
      occurs in the input and fails the test. */
  lemma {:induction false} InvalidCodesMembers(hexcodes: seq<string>, code: string)
    ensures code in InvalidCodes(hexcodes) <==> code in hexcodes && !IsValidHexCode(code)
    decreases |hexcodes|
  {
    if hexcodes != [] {
      InvalidCodesMembers(hexcodes[1..], code);
      assert hexcodes == [hexcodes[0]] + hexcodes[1..];
    }
  }

  /** Nothing is reported iff every code is valid. */
  lemma {:induction false} InvalidCodesEmpty(hexcodes: seq<string>)
    ensures InvalidCodes(hexcodes) == [] <==> AllValid(hexcodes)
    decreases |hexcodes|
  {
    if hexcodes != [] {
      InvalidCodesEmpty(hexcodes[1..]);
      assert AllValid(hexcodes) <==> IsValidHexCode(hexcodes[0]) && AllValid(hexcodes[1..]) by {
        if IsValidHexCode(hexcodes[0]) && AllValid(hexcodes[1..]) {
          forall i | 0 <= i < |hexcodes| ensures IsValidHexCode(hexcodes[i]) {
            if i > 0 { assert hexcodes[i] == hexcodes[1..][i - 1]; }
          }
        }
      }
    }
  }

  // ---------------------------------------------------------------------------
  // processColors, up to the call into the clustering stage
  // ---------------------------------------------------------------------------

  const MinClusters: int := 1
  const MaxClusters: int := 20

  /** Why `processColors` stops before clustering. */
  datatype InputError =
    | NoHexcodes                         // the textarea holds no code
    | InvalidHexcodes(codes: seq<string>) // every malformed code, in input order
    | ClusterCountOutOfRange             // the count is NaN or outside 1..20

  /** What the clustering stage receives. */
  datatype Request = Request(hexcodes: seq<string>, numClusters: int)

  /** The checks of `processColors` in their order: at least one code, then
      every code valid (all offenders reported together), then the cluster
      count. `numClusters` is the result of `parseInt`, `None` for NaN. */
  function ProcessColors(hexInput: string, numClusters: Option<int>): (r: Result<Request, InputError>)
    ensures r.Ok? <==>
      Tokenize(hexInput) != [] && AllValid(Tokenize(hexInput))
      && numClusters.Some? && MinClusters <= numClusters.value <= MaxClusters
    ensures r.Ok? ==> r.value.hexcodes == Tokenize(hexInput) && Some(r.value.numClusters) == numClusters
    ensures r == Err(NoHexcodes) <==> Tokenize(hexInput) == []
    ensures (r.Err? && r.error.InvalidHexcodes?) <==>
      Tokenize(hexInput) != [] && !AllValid(Tokenize(hexInput))
    ensures r.Err? && r.error.InvalidHexcodes? ==>
      r.error.codes == InvalidCodes(Tokenize(hexInput)) && r.error.codes != []
  {
    var hexcodes := Tokenize(hexInput);
    InvalidCodesEmpty(hexcodes);
    if |hexcodes| == 0 then Err(NoHexcodes)
    else
      var invalidHexcodes := InvalidCodes(hexcodes);
      if |invalidHexcodes| > 0 then Err(InvalidHexcodes(invalidHexcodes))
      else if numClusters.None? || numClusters.value < MinClusters || numClusters.value > MaxClusters then
        Err(ClusterCountOutOfRange)
      else Ok(Request(hexcodes, numClusters.value))
  }

  const InvalidPrefix: string := "Invalid hexcodes: "

  /** The text `showError` displays for each error. The invalid-codes
      message, and only it, starts with `Invalid hexcodes: `. */
  function ErrorMessage(e: InputError): (m: string)
    ensures e.InvalidHexcodes? <==> InvalidPrefix <= m
  {
    match e
    case NoHexcodes =>
      var m := "Please enter at least one hexcode.";
      assert m[0] != InvalidPrefix[0];
      m
    case InvalidHexcodes(codes) => InvalidPrefix + Join(codes, ", ")
    case ClusterCountOutOfRange =>
      var m := "Number of clusters must be between 1 and 20.";
      assert m[0] != InvalidPrefix[0];
      m
  }

  /** The invalid-codes message names every offending code: code `k` stands
      after the prefix at its place in the comma-separated list. */
  lemma ErrorMessageListsCode(codes: seq<string>, k: nat)
    requires k < |codes|
    ensures var m := ErrorMessage(InvalidHexcodes(codes));
      var at := |InvalidPrefix| + JoinOffset(codes, ", ", k);
      at + |codes[k]| <= |m| && m[at..at + |codes[k]|] == codes[k]
  {
    JoinContains(codes, ", ", k);
    SliceAfterPrefix(InvalidPrefix, Join(codes, ", "), JoinOffset(codes, ", ", k), |codes[k]|);
  }

  lemma SliceAfterPrefix(p: string, j: string, o: nat, n: nat)
    requires o + n <= |j|
    ensures (p + j)[|p| + o..|p| + o + n] == j[o..o + n]
  {
  }
}
