/** The request helpers of todo/backend/helper.go: the bearer-token format check and the
    `id` query parameter. Header and query extraction are left to the caller: the model
    starts from the `Authorization` header text and from the `id` value. */
module RequestHelpers {
  import opened Wrappers
  import opened GoInt
  import ListRegistry

  // ---------------------------------------------------------------------------
  // strings.Split with a non-empty separator

  /** `sep` occurs in `s` at position `i`. */
  predicate OccursAt(s: string, sep: string, i: nat) {
    i + |sep| <= |s| && s[i..i + |sep|] == sep
  }

  /** `strings.Index`: the first occurrence of `sep` in `s`. */
  function Index(s: string, sep: string): (r: Option<nat>)
    requires |sep| > 0
    ensures r.Some? ==> OccursAt(s, sep, r.value)
    ensures r.Some? ==> forall j :: 0 <= j < r.value ==> !OccursAt(s, sep, j)
    ensures r.None? ==> forall j :: 0 <= j <= |s| ==> !OccursAt(s, sep, j)
    decreases |s|
  {
    if |s| < |sep| then None
    else if s[..|sep|] == sep then Some(0)
    else match Index(s[1..], sep)
      case None =>
        assert forall j :: 1 <= j <= |s| ==> !OccursAt(s, sep, j) by {
          forall j | 1 <= j <= |s| { OccursShift(s, sep, j); }
        }
        None
      case Some(i) =>
        assert forall j :: 1 <= j <= i ==> !OccursAt(s, sep, j) by {
          forall j | 1 <= j <= i { OccursShift(s, sep, j); }
        }
        OccursShift(s, sep, i + 1);
        Some(i + 1)
  }

  lemma OccursShift(s: string, sep: string, j: nat)
    requires 1 <= j <= |s|
    ensures OccursAt(s, sep, j) == OccursAt(s[1..], sep, j - 1)
  {
    if j + |sep| <= |s| {
      assert s[1..][j - 1..j - 1 + |sep|] == s[j..j + |sep|];
    }
  }

  /** `sep` occurs nowhere in `s`. */
  predicate Free(s: string, sep: string) {
    forall j :: 0 <= j <= |s| ==> !OccursAt(s, sep, j)
  }

  /** `strings.Split(s, sep)`: the pieces between the occurrences of `sep`, scanning left
      to right. An empty `s` gives one empty piece. Joining the pieces with `sep` gives `s`
      back, and no piece contains `sep`. */
  function Split(s: string, sep: string): (r: seq<string>)
    requires |sep| > 0
    ensures |r| >= 1
    ensures Join(r, sep) == s
    ensures forall k :: 0 <= k < |r| ==> Free(r[k], sep)
    decreases |s|
  {
    match Index(s, sep)
    case None => [s]
    case Some(i) =>
      var rest := Split(s[i + |sep|..], sep);
      SplitStep(s, sep, i, rest);
      [s[..i]] + rest
  }

  /** `strings.Join`: the partner of Split. */
  function Join(pieces: seq<string>, sep: string): string
    decreases |pieces|
  {
    if |pieces| == 0 then ""
    else if |pieces| == 1 then pieces[0]
    else pieces[0] + sep + Join(pieces[1..], sep)
  }

  /** One step of Split: the text before the first occurrence, put in front of the pieces
      of the rest, joins back to the whole and stays free of `sep`. */
  lemma SplitStep(s: string, sep: string, i: nat, rest: seq<string>)
    requires |sep| > 0 && Index(s, sep) == Some(i)
    requires |rest| >= 1 && Join(rest, sep) == s[i + |sep|..]
    requires forall k :: 0 <= k < |rest| ==> Free(rest[k], sep)
    ensures Join([s[..i]] + rest, sep) == s
    ensures forall k :: 0 <= k < |[s[..i]] + rest| ==> Free(([s[..i]] + rest)[k], sep)
  {
    var all := [s[..i]] + rest;
    assert all[1..] == rest;
    SplitStepJoin(s, sep, i);
    PrefixFree(s, sep, i);
    forall k | 0 <= k < |all|
      ensures Free(all[k], sep)
    {
      if k > 0 { assert all[k] == rest[k - 1]; }
    }
  }

  /** The text cut at an occurrence of `sep` is the part before, `sep`, and the part after. */
  lemma SplitStepJoin(s: string, sep: string, i: nat)
    requires |sep| > 0 && Index(s, sep) == Some(i)
    ensures s == s[..i] + sep + s[i + |sep|..]
  {
    assert s[i..i + |sep|] == sep;
    assert s == s[..i] + s[i..i + |sep|] + s[i + |sep|..];
  }

  /** The text before the first occurrence of `sep` does not contain `sep`. */
  lemma PrefixFree(s: string, sep: string, i: nat)
    requires |sep| > 0 && Index(s, sep) == Some(i)
    ensures Free(s[..i], sep)
  {
    forall j | 0 <= j <= i
      ensures !OccursAt(s[..i], sep, j)
    {
      if j + |sep| <= i {
        assert !OccursAt(s, sep, j);
        assert s[..i][j..j + |sep|] == s[j..j + |sep|];
      }
    }
  }

  // ---------------------------------------------------------------------------
  // GetTokenFromRequest

  const Bearer: string := "Bearer "

  datatype RequestError = BadAuthorization | BadQuery | NoId | NotANumber

  /** GetTokenFromRequest: `header` is the `Authorization` header ("" when absent). The
      header must split on "Bearer " into exactly two pieces, the second 32 characters
      long; on failure the token is "". */
  function GetTokenFromRequest(header: string): (r: (string, Option<RequestError>))
    ensures r.1.Some? ==> r == ("", Some(BadAuthorization))
    ensures r.1.None? ==> |r.0| == 32
    ensures r.1.None? <==> |Split(header, Bearer)| == 2 && |Split(header, Bearer)[1]| == 32
  {
    var pieces := Split(header, Bearer);
    if |pieces| != 2 then ("", Some(BadAuthorization))
    else
      var token := pieces[1];
      if |token| != 32 then ("", Some(BadAuthorization))
      else (token, None)
  }

  /** An accepted header is some text, "Bearer ", then the token, and "Bearer " occurs
      in neither part. */
  lemma AcceptedHeaderShape(header: string)
    requires GetTokenFromRequest(header).1.None?
    ensures var token := GetTokenFromRequest(header).0;
      exists prefix :: Free(prefix, Bearer) && Free(token, Bearer) && header == prefix + Bearer + token
  {
    var pieces := Split(header, Bearer);
    assert pieces[1..] == [pieces[1]];
    assert Join(pieces, Bearer) == pieces[0] + Bearer + pieces[1];
    assert Free(pieces[0], Bearer) && Free(pieces[1], Bearer);
  }

  /** Text without a 'B' cannot hold "Bearer ". */
  lemma NoBearerInside(s: string)
    requires forall c :: c in s ==> c != 'B'
    ensures Free(s, Bearer)
  {
    forall j | 0 <= j < |s|
      ensures !OccursAt(s, Bearer, j)
    {
      assert s[j] in s;
    }
  }

  /** Conversely: any text, "Bearer ", and a 32-character token, with "Bearer " in
      neither part, is accepted, and the text in front is ignored. An occurrence cannot
      straddle the marker, since 'B' appears in "Bearer " only at its start. */
  lemma BearerTokenAccepted(prefix: string, token: string)
    requires Free(prefix, Bearer) && Free(token, Bearer)
    requires |token| == 32
    ensures GetTokenFromRequest(prefix + Bearer + token) == (token, None)
  {
    var header := prefix + Bearer + token;
    forall j | 0 <= j < |prefix|
      ensures !OccursAt(header, Bearer, j)
    {
      if j + |Bearer| <= |prefix| {
        assert header[j..j + |Bearer|] == prefix[j..j + |Bearer|];
        assert !OccursAt(prefix, Bearer, j);
      } else {
        var d := |prefix| - j;
        assert header[j..j + |Bearer|][d] == header[|prefix|] == 'B';
        assert Bearer[d] != 'B';
      }
    }
    assert OccursAt(header, Bearer, |prefix|) by {
      assert header[|prefix|..|prefix| + |Bearer|] == Bearer;
    }
    assert Index(header, Bearer) == Some(|prefix|);
    assert header[|prefix| + |Bearer|..] == token;
    assert Index(token, Bearer).None?;
    assert Split(token, Bearer) == [token];
    assert header[..|prefix|] == prefix;
    assert Split(header, Bearer) == [header[..|prefix|]] + Split(token, Bearer);
  }

  /** An empty or absent header is rejected. */
  lemma EmptyHeaderRejected()
    ensures GetTokenFromRequest("") == ("", Some(BadAuthorization))
  {
    assert Split("", Bearer) == [""];
  }

  /** Only the format is checked: a 32-character token that is not hex, and so was never
      handed out, passes. */
  lemma FormatOnly()
    ensures GetTokenFromRequest(Bearer + seq(32, _ => 'z')) == (seq(32, _ => 'z'), None)
    ensures forall rnd: Option<seq<ListRegistry.Byte>> :: (rnd.Some? ==> |rnd.value| == 16) ==>
      ListRegistry.RandomString(rnd).0 != seq(32, _ => 'z')
  {
    forall rnd: Option<seq<ListRegistry.Byte>> | rnd.Some? ==> |rnd.value| == 16
      ensures ListRegistry.RandomString(rnd).0 != seq(32, _ => 'z')
    {
      var s := ListRegistry.RandomString(rnd).0;
      if |s| == 32 {
        assert ListRegistry.IsHexDigit(s[0]);
        assert !ListRegistry.IsHexDigit('z');
      }
    }
    var token: string := seq(32, _ => 'z');
    NoBearerInside(token);
    NoBearerInside("");
    BearerTokenAccepted("", token);
    assert "" + Bearer + token == Bearer + token;
  }

  // ---------------------------------------------------------------------------
  // getIdFromUrl and its strconv.Atoi

  predicate IsDigit(c: char) {
    '0' <= c <= '9'
  }

  predicate AllDigits(s: string) {
    forall i :: 0 <= i < |s| ==> IsDigit(s[i])
  }

  /** The value of a string of decimal digits, most significant first. */
  function DecimalValue(s: string): (n: nat)
    requires AllDigits(s)
    decreases |s|
  {
    if |s| == 0 then 0
    else DecimalValue(s[..|s| - 1]) * 10 + (s[|s| - 1] as int - '0' as int)
  }

  /** `strconv.Atoi`: an optional sign, then one or more decimal digits, with a value in
      the 64-bit range. */
  function Atoi(s: string): (r: Option<int>)
    ensures r.Some? ==> InRange(r.value)
    ensures |s| == 0 ==> r.None?
  {
    if |s| == 0 then None
    else
      var neg := s[0] == '-';
      var digits := if s[0] == '-' || s[0] == '+' then s[1..] else s;
      if |digits| == 0 || !AllDigits(digits) then None
      else
        var v: int := if neg then 0 - DecimalValue(digits) else DecimalValue(digits);
        if InRange(v) then Some(v) else None
  }

  /** The decimal digits of a natural number, without leading zeros. */
  function Digits(n: nat): (s: string)
    ensures |s| > 0 && AllDigits(s)
    ensures DecimalValue(s) == n
  {
    if n < 10 then [('0' as int + n) as char]
    else
      var s := Digits(n / 10) + [('0' as int + n % 10) as char];
      assert s[..|s| - 1] == Digits(n / 10);
      s
  }

  /** `strconv.Itoa`: the partner of Atoi. */
  function Itoa(n: int): (s: string)
    ensures |s| > 0
  {
    if n < 0 then "-" + Digits(-n) else Digits(n)
  }

  /** Every 64-bit integer survives Itoa then Atoi. */
  lemma AtoiItoa(n: int)
    requires InRange(n)
    ensures Atoi(Itoa(n)) == Some(n)
  {
    if n < 0 {
      assert Itoa(n)[1..] == Digits(-n);
    } else {
      assert Itoa(n)[0] != '-' && Itoa(n)[0] != '+' by {
        assert IsDigit(Digits(n)[0]);
      }
    }
  }

  /** getIdFromUrl: `query` is the `id` value `url.ParseQuery` extracted ("" when absent),
      or None when the query did not parse. Every error gives -1. */
  function GetIdFromUrl(query: Option<string>): (r: (int, Option<RequestError>))
    ensures r.1.Some? ==> r.0 == -1
    ensures query.None? ==> r.1 == Some(BadQuery)
    ensures query == Some("") ==> r.1 == Some(NoId)
    ensures r.1.None? <==> query.Some? && Atoi(query.value).Some?
    ensures r.1.None? ==> r.0 == Atoi(query.value).value
  {
    match query
    case None => (-1, Some(BadQuery))
    case Some(idString) =>
      if idString == "" then (-1, Some(NoId))
      else match Atoi(idString)
        case None => (-1, Some(NotANumber))
        case Some(v) => (v, None)
  }

  /** A query whose `id` is the decimal form of a 64-bit integer yields that integer. */
  lemma IdFromDecimal(n: int)
    requires InRange(n)
    ensures GetIdFromUrl(Some(Itoa(n))) == (n, None)
  {
    AtoiItoa(n);
  }

  /** A non-numeric `id` is rejected with -1. */
  lemma NonNumericIdRejected(idString: string)
    requires idString != "" && exists i :: 0 <= i < |idString| && !IsDigit(idString[i]) && idString[i] != '-' && idString[i] != '+'
    ensures GetIdFromUrl(Some(idString)) == (-1, Some(NotANumber))
  {
    var i :| 0 <= i < |idString| && !IsDigit(idString[i]) && idString[i] != '-' && idString[i] != '+';
    var digits := if idString[0] == '-' || idString[0] == '+' then idString[1..] else idString;
    if idString[0] == '-' || idString[0] == '+' {
      assert i > 0 && digits[i - 1] == idString[i];
    } else {
      assert digits[i] == idString[i];
    }
  }
}
