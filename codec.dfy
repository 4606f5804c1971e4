/**
 * The text codec for the `applicable_products` column: a list of product ids
 * is stored as `{v1,v2,...,vn}` and read back by trimming the braces,
 * splitting on commas and parsing each piece with `Atoi`.
 */
module Codec {
  import opened Wrappers
  import opened Strconv
  import opened Strings

  /** The cutset `"{}"` handed to `strings.Trim`. */
  const Braces: set<char> := {'{', '}'}

  /** The `%d` rendering of each id, in order. */
  function Renderings(xs: seq<Int>): seq<string> {
    seq(|xs|, i requires 0 <= i < |xs| => FormatInt(xs[i]))
  }

  /** The text `intSliceToPostgresArray(xs)` returns. */
  function Encode(xs: seq<Int>): (r: string)
    ensures |r| >= 2 && r[0] == '{' && r[|r| - 1] == '}'
  {
    "{" + Join(Renderings(xs), ",") + "}"
  }

  /** The pieces `postgresArrayToIntSlice` hands to `Atoi`, in order. */
  function Tokens(pgArray: string): seq<string> {
    Split(Trim(pgArray, Braces), ',')
  }

  /** Parse every token in order; the first token `Atoi` rejects decides the error. */
  function ParseTokens(tokens: seq<string>): (r: Result<seq<Int>, NumError>)
    ensures r.Success? ==> |r.value| == |tokens|
  {
    if tokens == [] then Success([])
    else
      match Atoi(tokens[0])
      case Failure(e) => Failure(e)
      case Success(v) =>
        match ParseTokens(tokens[1..])
        case Failure(e) => Failure(e)
        case Success(vs) => Success([v] + vs)
  }

  /** What `postgresArrayToIntSlice(pgArray)` returns; a success is never the empty list. */
  function Decode(pgArray: string): (r: Result<seq<Int>, NumError>)
    ensures r.Success? ==> |r.value| >= 1
  {
    ParseTokens(Tokens(pgArray))
  }

  /** Token `k` is the first one `Atoi` rejects. */
  predicate FirstBadToken(tokens: seq<string>, k: int) {
    0 <= k < |tokens| && Atoi(tokens[k]).Failure? &&
    forall j :: 0 <= j < k ==> Atoi(tokens[j]).Success?
  }

  /**
   * `intSliceToPostgresArray`: render every id into a preallocated slice of
   * strings, then join them with commas inside braces.
   */
  method IntSliceToPostgresArray(intSlice: seq<Int>) returns (r: string)
    ensures r == Encode(intSlice)
  {
    var strSlice := new string[|intSlice|];
    for i := 0 to |intSlice|
      invariant forall j :: 0 <= j < i ==> strSlice[j] == FormatInt(intSlice[j])
    {
      strSlice[i] := FormatInt(intSlice[i]);
    }
    assert strSlice[..] == Renderings(intSlice);
    r := "{" + Join(strSlice[..], ",") + "}";
  }

  /**
   * `postgresArrayToIntSlice`: trim the braces, split on commas, and parse the
   * pieces one by one into a preallocated slice, giving up with the error of
   * the first piece that does not parse.
   */
  method PostgresArrayToIntSlice(pgArray: string) returns (res: Result<seq<Int>, NumError>)
    ensures res == Decode(pgArray)
  {
    var trimmed := Trim(pgArray, Braces);
    var strSlice := Split(trimmed, ',');
    assert strSlice == Tokens(pgArray);
    var intSlice := new Int[|strSlice|];
    for i := 0 to |strSlice|
      invariant forall j :: 0 <= j < i ==> Atoi(strSlice[j]) == Success(intSlice[j])
    {
      var num := Atoi(strSlice[i]);
      if num.Failure? {
        ParseTokensFirstBad(strSlice, i);
        return Failure(num.error);
      }
      intSlice[i] := num.value;
    }
    ParseTokensAllGood(strSlice, intSlice[..]);
    return Success(intSlice[..]);
  }

  /** If every token parses, the result is the parsed values in token order. */
  lemma {:induction false} ParseTokensAllGood(tokens: seq<string>, vs: seq<Int>)
    requires |vs| == |tokens|
    requires forall j :: 0 <= j < |tokens| ==> Atoi(tokens[j]) == Success(vs[j])
    ensures ParseTokens(tokens) == Success(vs)
  {
    if tokens != [] {
      assert Atoi(tokens[0]) == Success(vs[0]);
      forall j | 0 <= j < |tokens| - 1 ensures Atoi(tokens[1..][j]) == Success(vs[1..][j]) {
        assert tokens[1..][j] == tokens[j + 1] && vs[1..][j] == vs[j + 1];
      }
      ParseTokensAllGood(tokens[1..], vs[1..]);
      assert vs == [vs[0]] + vs[1..];
    }
  }

  /** The error of the first token `Atoi` rejects is the error of the whole parse. */
  lemma {:induction false} ParseTokensFirstBad(tokens: seq<string>, k: int)
    requires FirstBadToken(tokens, k)
    ensures ParseTokens(tokens) == Failure(Atoi(tokens[k]).error)
  {
    if k > 0 {
      assert Atoi(tokens[0]).Success?;
      assert FirstBadToken(tokens[1..], k - 1) by {
        forall j | 0 <= j < k - 1 ensures Atoi(tokens[1..][j]).Success? {
          assert tokens[1..][j] == tokens[j + 1];
        }
      }
      ParseTokensFirstBad(tokens[1..], k - 1);
    }
  }

  /**
   * The parse succeeds exactly when every token parses, and then yields one
   * value per token, in token order.
   */
  lemma {:induction false} ParseTokensSuccess(tokens: seq<string>)
    ensures ParseTokens(tokens).Success? <==> forall j :: 0 <= j < |tokens| ==> Atoi(tokens[j]).Success?
    ensures ParseTokens(tokens).Success? ==>
      |ParseTokens(tokens).value| == |tokens| &&
      forall j :: 0 <= j < |tokens| ==> ParseTokens(tokens).value[j] == Atoi(tokens[j]).value
  {
    if tokens != [] {
      ParseTokensSuccess(tokens[1..]);
      assert forall j :: 1 <= j < |tokens| ==> tokens[1..][j - 1] == tokens[j];
    }
  }

  /** When the parse fails, its error is that of the first token `Atoi` rejects. */
  lemma {:induction false} ParseTokensFailure(tokens: seq<string>)
    requires ParseTokens(tokens).Failure?
    ensures exists k :: FirstBadToken(tokens, k) && ParseTokens(tokens).error == Atoi(tokens[k]).error
  {
    if Atoi(tokens[0]).Failure? {
      assert FirstBadToken(tokens, 0);
    } else {
      ParseTokensFailure(tokens[1..]);
      var k :| FirstBadToken(tokens[1..], k) && ParseTokens(tokens[1..]).error == Atoi(tokens[1..][k]).error;
      assert forall j :: 1 <= j < |tokens| ==> tokens[1..][j - 1] == tokens[j];
      assert FirstBadToken(tokens, k + 1);
    }
  }

  /** No rendered id contains `c` unless `c` is a digit or the minus sign. */
  lemma RenderingsAvoid(xs: seq<Int>, c: char)
    requires !IsDigit(c) && c != '-'
    ensures forall i :: 0 <= i < |xs| ==> c !in Renderings(xs)[i]
  {
  }

  /** The joined renderings hold only digits, minus signs and commas: no brace and no space. */
  lemma JoinedRenderingsAvoid(xs: seq<Int>, c: char)
    requires !IsDigit(c) && c != '-' && c != ','
    ensures c !in Join(Renderings(xs), ",")
  {
    RenderingsAvoid(xs, c);
    JoinAvoids(Renderings(xs), ",", c);
  }

  /**
   * The encoded text is an opening brace, the renderings joined by commas and
   * a closing brace; it contains no space, and holds exactly one comma fewer
   * than there are ids (none for the empty list).
   */
  lemma EncodeShape(xs: seq<Int>)
    ensures var e := Encode(xs);
      |e| >= 2 && e[0] == '{' && e[|e| - 1] == '}' &&
      Split(e[1..|e| - 1], ',') == (if xs == [] then [""] else Renderings(xs)) &&
      Count(e, ',') == (if xs == [] then 0 else |xs| - 1) &&
      ' ' !in e
  {
    var e := Encode(xs);
    var j := Join(Renderings(xs), ",");
    assert e[1..|e| - 1] == j;
    JoinedRenderingsAvoid(xs, ' ');
    assert multiset(e) == multiset("{") + multiset(j) + multiset("}");
    if xs == [] {
      assert j == "";
    } else {
      RenderingsAvoid(xs, ',');
      SplitJoin(Renderings(xs), ',');
      SplitCount(j, ',');
    }
  }

  /** The empty list encodes to exactly `{}`. */
  lemma EncodeEmpty()
    ensures Encode([]) == "{}"
  {
  }

  /** Trimming any run of braces around an encoded non-empty list leaves the joined renderings. */
  lemma TrimEncoded(xs: seq<Int>, pre: string, post: string)
    requires forall i :: 0 <= i < |pre| ==> pre[i] in Braces
    requires forall i :: 0 <= i < |post| ==> post[i] in Braces
    ensures Trim(pre + Encode(xs) + post, Braces) == Join(Renderings(xs), ",")
  {
    if xs == [] {
      var s := pre + Encode(xs) + post;
      EncodeEmpty();
      assert s == pre + "{}" + post;
      assert forall i :: 0 <= i < |s| ==> s[i] in Braces by {
        forall i | 0 <= i < |s|
          ensures s[i] in Braces
        {
          if i < |pre| {
            assert s[i] == pre[i];
          } else if i >= |pre| + 2 {
            assert s[i] == post[i - |pre| - 2];
          }
        }
      }
      TrimEmpty(s, Braces);
      return;
    }
    var j := Join(Renderings(xs), ",");
    var pre' := pre + "{";
    var post' := "}" + post;
    assert pre + Encode(xs) + post == pre' + j + post';
    JoinedRenderingsAvoid(xs, '{');
    JoinedRenderingsAvoid(xs, '}');
    JoinNonEmpty(Renderings(xs), ",");
    assert j[0] in j && j[|j| - 1] in j;
    TrimFrame(pre', j, post', Braces);
  }

  /** The tokens the decoder sees in an encoded non-empty list are the renderings of its ids. */
  lemma EncodeTokens(xs: seq<Int>)
    requires xs != []
    ensures Tokens(Encode(xs)) == Renderings(xs)
  {
    var j := Join(Renderings(xs), ",");
    JoinedRenderingsAvoid(xs, '{');
    JoinedRenderingsAvoid(xs, '}');
    JoinNonEmpty(Renderings(xs), ",");
    assert j[0] in j && j[|j| - 1] in j;
    TrimFrame("{", j, "}", Braces);
    RenderingsAvoid(xs, ',');
    SplitJoin(Renderings(xs), ',');
  }

  /** Round trip: every non-empty list of 64-bit ids, negative ones included, decodes back to itself. */
  lemma RoundTrip(xs: seq<Int>)
    requires xs != []
    ensures Decode(Encode(xs)) == Success(xs)
  {
    EncodeTokens(xs);
    forall j | 0 <= j < |xs| ensures Atoi(Renderings(xs)[j]) == Success(xs[j]) {
      AtoiFormatInt(xs[j]);
    }
    ParseTokensAllGood(Renderings(xs), xs);
  }

  /**
   * Decoding succeeds exactly when every token parses, and then yields one id
   * per token, in token order: one more id than the trimmed text has commas.
   */
  lemma DecodeSuccess(pgArray: string)
    ensures Decode(pgArray).Success? <==>
      forall j :: 0 <= j < |Tokens(pgArray)| ==> Atoi(Tokens(pgArray)[j]).Success?
    ensures Decode(pgArray).Success? ==>
      |Decode(pgArray).value| == |Tokens(pgArray)| == Count(Trim(pgArray, Braces), ',') + 1 &&
      forall j :: 0 <= j < |Tokens(pgArray)| ==> Decode(pgArray).value[j] == Atoi(Tokens(pgArray)[j]).value
  {
    ParseTokensSuccess(Tokens(pgArray));
    SplitCount(Trim(pgArray, Braces), ',');
  }

  /** Decoding fails with the error of the first token `Atoi` rejects. */
  lemma DecodeFailure(pgArray: string, k: int)
    requires FirstBadToken(Tokens(pgArray), k)
    ensures Decode(pgArray) == Failure(Atoi(Tokens(pgArray)[k]).error)
    ensures Decode(pgArray).error.num == Tokens(pgArray)[k]
  {
    ParseTokensFirstBad(Tokens(pgArray), k);
  }

  /**
   * A text made only of braces, `{}` among them, does not decode: trimming
   * leaves the empty text, which splits into one empty token, which `Atoi`
   * rejects.
   */
  lemma DecodeBracesOnly(pgArray: string)
    requires forall i :: 0 <= i < |pgArray| ==> pgArray[i] in Braces
    ensures Decode(pgArray) == Failure(NumError("", ErrSyntax))
  {
    TrimEmpty(pgArray, Braces);
    assert IndexOf("", ',') == -1;
    assert Tokens(pgArray) == [""];
    AtoiEmpty();
  }

  /** The empty list therefore does not survive a round trip. */
  lemma EmptyListDoesNotRoundTrip()
    ensures Decode(Encode([])) == Failure(NumError("", ErrSyntax))
  {
    EncodeEmpty();
    DecodeBracesOnly("{}");
  }

  /** Any run of braces on either side is stripped, not just one brace each side. */
  lemma DecodeIgnoresBraceRuns(xs: seq<Int>, pre: string, post: string)
    requires xs != []
    requires forall i :: 0 <= i < |pre| ==> pre[i] in Braces
    requires forall i :: 0 <= i < |post| ==> post[i] in Braces
    ensures Decode(pre + Encode(xs) + post) == Success(xs)
  {
    TrimEncoded(xs, pre, post);
    TrimEncoded(xs, "", "");
    assert "" + Encode(xs) + "" == Encode(xs);
    assert Tokens(pre + Encode(xs) + post) == Tokens(Encode(xs));
    RoundTrip(xs);
  }

  /** A doubly braced list decodes like a singly braced one. */
  lemma DecodeDoubleBraces()
    ensures Decode("{{1,2}}") == Success([1, 2])
  {
    assert Encode([1, 2]) == "{1,2}" by {
      assert FormatInt(1) == "1" && FormatInt(2) == "2";
      assert Renderings([1, 2]) == ["1", "2"];
      assert Join(["1", "2"], ",") == "1,2";
    }
    DecodeIgnoresBraceRuns([1, 2], "{", "}");
    assert "{" + "{1,2}" + "}" == "{{1,2}}";
  }

  /**
   * Nothing but digits, signs and commas is allowed between the braces:
   * whitespace of any kind, or a brace left inside (`{1}{2}` trims to `1}{2`),
   * makes decoding fail.
   */
  lemma DecodeRejectsForeignChar(pgArray: string, c: char)
    requires !IsDigit(c) && c != '+' && c != '-' && c != ','
    requires c in Trim(pgArray, Braces)
    ensures Decode(pgArray).Failure?
  {
    var t := Trim(pgArray, Braces);
    var tokens := Tokens(pgArray);
    JoinSplit(t, ',');
    if forall j :: 0 <= j < |tokens| ==> c !in tokens[j] {
      JoinAvoids(tokens, ",", c);
      assert false;
    }
    var j :| 0 <= j < |tokens| && c in tokens[j];
    var i :| 0 <= i < |tokens[j]| && tokens[j][i] == c;
    AtoiRejectsForeignChar(tokens[j], i);
    DecodeSuccess(pgArray);
  }

  /** The decoder with the empty representation special-cased: brace-only text, `{}` among it, is the empty list. */
  function DecodeCorrected(pgArray: string): (r: Result<seq<Int>, NumError>)
    ensures r.Success? ==> (r.value == [] <==> Trim(pgArray, Braces) == [])
    ensures (forall i :: 0 <= i < |pgArray| ==> pgArray[i] in Braces) ==> r == Success([])
  {
    TrimEmpty(pgArray, Braces);
    if Trim(pgArray, Braces) == [] then Success([]) else Decode(pgArray)
  }

  /** The corrected decoder inverts the encoder on every list, the empty one included. */
  lemma RoundTripCorrected(xs: seq<Int>)
    ensures DecodeCorrected(Encode(xs)) == Success(xs)
  {
    if xs == [] {
      EncodeEmpty();
      TrimEmpty("{}", Braces);
    } else {
      EncodeTokens(xs);
      RoundTrip(xs);
      assert Tokens(Encode(xs)) != [""];
    }
  }

  /** `postgresArrayToIntSlice` with the empty representation special-cased before splitting. */
  method PostgresArrayToIntSliceCorrected(pgArray: string) returns (res: Result<seq<Int>, NumError>)
    ensures res == DecodeCorrected(pgArray)
  {
    if Trim(pgArray, Braces) == [] {
      return Success([]);
    }
    res := PostgresArrayToIntSlice(pgArray);
  }
}
