/** The registry of todo lists in todo/stores/todoListStore.go: every list is known by a
    token of 32 lowercase hex digits made from 16 random bytes. */
module ListRegistry {
  import opened Wrappers
  import opened Todos

  type Byte = x: int | 0 <= x < 256

  /** A digit `hex.EncodeToString` can produce: lowercase only. */
  predicate IsHexDigit(c: char) {
    '0' <= c <= '9' || 'a' <= c <= 'f'
  }

  /** `hex.EncodeToString`: two lowercase digits per byte, high nibble first. */
  function HexEncode(b: seq<Byte>): (s: string)
    ensures |s| == 2 * |b|
    ensures forall i :: 0 <= i < |s| ==> IsHexDigit(s[i])
  {
    if |b| == 0 then []
    else [HexDigit(b[0] / 16), HexDigit(b[0] % 16)] + HexEncode(b[1..])
  }

  /** The digit for a nibble, as in the alphabet "0123456789abcdef". */
  function HexDigit(n: nat): (c: char)
    requires n < 16
    ensures IsHexDigit(c)
  {
    if n < 10 then ('0' as int + n) as char else ('a' as int + n - 10) as char
  }

  /** The value of a lowercase hex digit. */
  function HexValue(c: char): (r: Option<nat>)
    ensures r.Some? ==> r.value < 16 && HexDigit(r.value) == c
    ensures IsHexDigit(c) <==> r.Some?
  {
    if '0' <= c <= '9' then Some(c as int - '0' as int)
    else if 'a' <= c <= 'f' then Some(c as int - 'a' as int + 10)
    else None
  }

  /** The inverse of HexEncode: pairs of lowercase digits back to bytes. */
  function HexDecode(s: string): (r: Option<seq<Byte>>)
    ensures r.Some? ==> 2 * |r.value| == |s|
    decreases |s|
  {
    if |s| == 0 then Some([])
    else if |s| == 1 then None
    else match (HexValue(s[0]), HexValue(s[1]), HexDecode(s[2..]))
      case (Some(hi), Some(lo), Some(rest)) => Some([hi * 16 + lo] + rest)
      case _ => None
  }

  lemma HexDigitValue(n: nat)
    requires n < 16
    ensures HexValue(HexDigit(n)) == Some(n)
  {
  }

  /** Decoding an encoded token gives the bytes back. */
  lemma {:induction false} HexRoundTrip(b: seq<Byte>)
    ensures HexDecode(HexEncode(b)) == Some(b)
  {
    if |b| > 0 {
      var s := HexEncode(b);
      var hi, lo := b[0] / 16, b[0] % 16;
      assert s == [HexDigit(hi), HexDigit(lo)] + HexEncode(b[1..]);
      assert s[2..] == HexEncode(b[1..]);
      HexRoundTrip(b[1..]);
      HexPair(s, hi, lo);
      assert hi * 16 + lo == b[0];
      assert [b[0]] + b[1..] == b;
    }
  }

  lemma HexPair(s: string, hi: nat, lo: nat)
    requires hi < 16 && lo < 16 && |s| >= 2 && s[0] == HexDigit(hi) && s[1] == HexDigit(lo)
    ensures HexValue(s[0]) == Some(hi) && HexValue(s[1]) == Some(lo)
  {
    HexDigitValue(hi);
    HexDigitValue(lo);
  }

  /** Different random bytes give different tokens. */
  lemma HexEncodeInjective(a: seq<Byte>, b: seq<Byte>)
    requires HexEncode(a) == HexEncode(b)
    ensures a == b
  {
    HexRoundTrip(a);
    HexRoundTrip(b);
  }

  // ---------------------------------------------------------------------------

  /** The unexported `todoList` record: an id and a `Start` that nothing ever sets. */
  datatype ListEntry = ListEntry(id: string, start: Option<Ptr>)

  /** The package-level `todoListStore` slice. */
  type Registry = seq<ListEntry>

  datatype RandError = RandError

  /** randomString: `rnd` is what `rand.Read` put into the 16-byte buffer, or None when
      it failed. The token is the hex form of those bytes; on failure it is "". */
  function RandomString(rnd: Option<seq<Byte>>): (r: (string, Option<RandError>))
    requires rnd.Some? ==> |rnd.value| == 16
    ensures rnd.None? ==> r == ("", Some(RandError))
    ensures rnd.Some? ==> r.1.None? && |r.0| == 32 && HexDecode(r.0) == Some(rnd.value)
    ensures forall i :: 0 <= i < |r.0| ==> IsHexDigit(r.0[i])
  {
    match rnd
    case None => ("", Some(RandError))
    case Some(b) => HexRoundTrip(b); (HexEncode(b), None)
  }

  /** NewTodoList: makes a token and appends an empty list with it. */
  function NewTodoList(store: Registry, rnd: Option<seq<Byte>>): (r: (Registry, string, Option<RandError>))
    requires rnd.Some? ==> |rnd.value| == 16
    ensures rnd.None? ==> r == (store, "", Some(RandError))
    ensures rnd.Some? ==> && r.2.None? && |r.0| == |store| + 1 && r.0[..|store|] == store
                          && r.0[|store|] == ListEntry(r.1, None) && |r.1| == 32
  {
    var (token, err) := RandomString(rnd);
    if err.Some? then (store, "", err)
    else (store + [ListEntry(token, None)], token, None)
  }

  /** Some list in the registry has the id. */
  ghost predicate Known(store: Registry, listId: string) {
    exists i :: 0 <= i < |store| && store[i].id == listId
  }

  /** IsValidTodoListId: scans the registry for the id. */
  method IsValidTodoListId(store: Registry, listId: string) returns (valid: bool)
    ensures valid <==> Known(store, listId)
  {
    for i := 0 to |store|
      invariant forall j :: 0 <= j < i ==> store[j].id != listId
    {
      if listId == store[i].id {
        return true;
      }
    }
    return false;
  }

  /** GetTodoListById: the index of the first list with the id. */
  function GetTodoListById(store: Registry, listId: string): (r: Option<nat>)
    ensures r.Some? ==> r.value < |store| && store[r.value].id == listId
    ensures r.Some? ==> forall j :: 0 <= j < r.value ==> store[j].id != listId
    ensures r.None? <==> !Known(store, listId)
  {
    if |store| == 0 then None
    else if store[0].id == listId then Some(0)
    else match GetTodoListById(store[1..], listId)
      case None =>
        assert forall j :: 1 <= j < |store| ==> store[j].id == store[1..][j - 1].id;
        None
      case Some(i) => Some(i + 1)
  }

  /** No operation removes a list, so a known token stays known. */
  lemma NewTodoListKeepsKnown(store: Registry, rnd: Option<seq<Byte>>, listId: string)
    requires rnd.Some? ==> |rnd.value| == 16
    requires Known(store, listId)
    ensures Known(NewTodoList(store, rnd).0, listId)
    ensures GetTodoListById(NewTodoList(store, rnd).0, listId) == GetTodoListById(store, listId)
  {
    var store' := NewTodoList(store, rnd).0;
    var i :| 0 <= i < |store| && store[i].id == listId;
    assert store'[i] == store[i];
    var k := GetTodoListById(store, listId).value;
    assert store'[k] == store[k];
    assert forall j :: 0 <= j < k ==> store'[j] == store[j];
  }

  /** The token NewTodoList returns names a list; a token not known before finds the
      new, empty list. */
  lemma NewTodoListFound(store: Registry, rnd: Option<seq<Byte>>)
    requires rnd.Some? && |rnd.value| == 16
    ensures var (store', token, _) := NewTodoList(store, rnd);
      && Known(store', token)
      && (!Known(store, token) ==>
            GetTodoListById(store', token) == Some(|store|) && store'[|store|] == ListEntry(token, None))
  {
    var (store', token, _) := NewTodoList(store, rnd);
    assert store'[|store|].id == token;
    if !Known(store, token) {
      assert forall j :: 0 <= j < |store| ==> store'[j] == store[j];
    }
  }

  /** Creating lists one after another: every token handed out stays valid. */
  function CreateLists(store: Registry, rnds: seq<Option<seq<Byte>>>): (r: (Registry, seq<string>))
    requires forall i :: 0 <= i < |rnds| ==> rnds[i].Some? ==> |rnds[i].value| == 16
    decreases |rnds|
  {
    if |rnds| == 0 then (store, [])
    else
      var (store1, token, err) := NewTodoList(store, rnds[0]);
      var (last, tokens) := CreateLists(store1, rnds[1..]);
      (last, if err.None? then [token] + tokens else tokens)
  }

  /** Across any sequence of creations, an id names a list exactly when it was known
      before or was handed out: no token is lost and no other string becomes valid. */
  lemma {:induction false} CreatedListsStayKnown(store: Registry, rnds: seq<Option<seq<Byte>>>, t: string)
    requires forall i :: 0 <= i < |rnds| ==> rnds[i].Some? ==> |rnds[i].value| == 16
    ensures Known(CreateLists(store, rnds).0, t) <==> Known(store, t) || t in CreateLists(store, rnds).1
    decreases |rnds|
  {
    if |rnds| > 0 {
      var (store1, token, err) := NewTodoList(store, rnds[0]);
      var tokens := CreateLists(store1, rnds[1..]).1;
      assert CreateLists(store, rnds).1 == if err.None? then [token] + tokens else tokens;
      NewTodoListKnownIff(store, rnds[0], t);
      CreatedListsStayKnown(store1, rnds[1..], t);
    }
  }

  /** One creation: an id is known afterwards exactly when it was known before or is the
      token just handed out. */
  lemma NewTodoListKnownIff(store: Registry, rnd: Option<seq<Byte>>, t: string)
    requires rnd.Some? ==> |rnd.value| == 16
    ensures var (store', token, err) := NewTodoList(store, rnd);
      Known(store', t) <==> Known(store, t) || (err.None? && t == token)
  {
    var (store', token, err) := NewTodoList(store, rnd);
    if err.None? {
      if Known(store', t) && !Known(store, t) {
        var i :| 0 <= i < |store'| && store'[i].id == t;
        assert i == |store|;
      }
      if t == token {
        NewTodoListFound(store, rnd);
      }
      if Known(store, t) {
        NewTodoListKeepsKnown(store, rnd, t);
      }
    }
  }
}
