/**
 * The parts of actix-web's HTTP types the publish path uses: a header map
 * with case-insensitive names, `HeaderValue::to_str` / `from_str`, and a
 * response whose header map is updated in place.
 */
module Http {
  import opened Wrappers
  import opened Common
  import Utf8

  const OK: nat := 200
  const UNAUTHORIZED: nat := 401
  const INTERNAL_SERVER_ERROR: nat := 500

  const AUTHORIZATION: string := "authorization"
  const WWW_AUTHENTICATE: string := "www-authenticate"

  /** The raw bytes of a header value. */
  type HeaderValue = seq<Byte>

  function LowerChar(c: char): char {
    if 'A' <= c <= 'Z' then (c as int + 32) as char else c
  }

  /** Header names are compared after ASCII lower-casing, as `HeaderName` does. */
  function Lower(s: string): (r: string)
    ensures |r| == |s|
    ensures forall i :: 0 <= i < |s| ==> r[i] == LowerChar(s[i])
  {
    seq(|s|, i requires 0 <= i < |s| => LowerChar(s[i]))
  }

  predicate SameName(a: string, b: string) {
    Lower(a) == Lower(b)
  }

  /** The index of the first entry named `name`, if any. */
  function Find(entries: seq<(string, HeaderValue)>, name: string): (r: Option<nat>)
    ensures r.Some? ==> r.value < |entries| && SameName(entries[r.value].0, name)
    ensures r.Some? ==> forall k :: 0 <= k < r.value ==> !SameName(entries[k].0, name)
    ensures r.None? <==> forall k :: 0 <= k < |entries| ==> !SameName(entries[k].0, name)
  {
    if entries == [] then None
    else if SameName(entries[0].0, name) then Some(0)
    else
      match Find(entries[1..], name)
      case None => None
      case Some(k) => Some(k + 1)
  }

  /** The entries that do not carry `name`, in their order. */
  function Without(entries: seq<(string, HeaderValue)>, name: string): (r: seq<(string, HeaderValue)>)
    ensures forall k :: 0 <= k < |r| ==> !SameName(r[k].0, name)
    ensures |r| <= |entries|
  {
    if entries == [] then []
    else if SameName(entries[0].0, name) then Without(entries[1..], name)
    else [entries[0]] + Without(entries[1..], name)
  }

  /** The number of entries named `name`. */
  function Count(entries: seq<(string, HeaderValue)>, name: string): nat {
    if entries == [] then 0
    else (if SameName(entries[0].0, name) then 1 else 0) + Count(entries[1..], name)
  }

  /**
   * A header map: its entries in order. A name may occur more than once;
   * `get` answers with the first value stored under it.
   */
  datatype HeaderMap = HeaderMap(entries: seq<(string, HeaderValue)>)
  {
    /** `HeaderMap::get`: the first value stored under `name`, whatever its case. */
    function Get(name: string): (r: Option<HeaderValue>)
      ensures r.None? <==> forall k :: 0 <= k < |entries| ==> !SameName(entries[k].0, name)
      ensures r.Some? ==> Find(entries, name).Some? && r.value == entries[Find(entries, name).value].1
    {
      match Find(entries, name)
      case None => None
      case Some(k) => Some(entries[k].1)
    }

    /** `HeaderMap::insert`: every value under `name` is replaced by the one given. */
    function Insert(name: string, value: HeaderValue): (r: HeaderMap)
      ensures r.Get(name) == Some(value)
      ensures Count(r.entries, name) == 1
      ensures forall other :: !SameName(other, name) ==> r.Get(other) == Get(other)
    {
      InsertLookups(this, name, value);
      HeaderMap(Without(entries, name) + [(name, value)])
    }
  }

  const EMPTY: HeaderMap := HeaderMap([])

  /** Inserting into an empty map gives a map of exactly that one entry. */
  lemma InsertIntoEmpty(name: string, value: HeaderValue)
    ensures |EMPTY.Insert(name, value).entries| == 1
    ensures Count(EMPTY.Insert(name, value).entries, name) == 1
    ensures EMPTY.Insert(name, value).Get(name) == Some(value)
  {
    assert Without([], name) == [];
  }

  lemma InsertLookups(m: HeaderMap, name: string, value: HeaderValue)
    ensures var r := HeaderMap(Without(m.entries, name) + [(name, value)]);
      && Find(r.entries, name) == Some(|Without(m.entries, name)|)
      && Count(r.entries, name) == 1
      && forall other :: !SameName(other, name) ==> r.Get(other) == m.Get(other)
  {
    var rest := Without(m.entries, name);
    WithoutCount(m.entries, name);
    CountAppend(rest, [(name, value)], name);
    forall other | !SameName(other, name)
      ensures HeaderMap(rest + [(name, value)]).Get(other) == m.Get(other)
    {
      FindWithout(m.entries, name, other);
      FindAppend(rest, [(name, value)], other);
    }
    FindPastWithout(rest, [(name, value)], name);
  }

  lemma {:induction false} WithoutCount(entries: seq<(string, HeaderValue)>, name: string)
    ensures Count(Without(entries, name), name) == 0
  {
    if entries != [] {
      WithoutCount(entries[1..], name);
      if !SameName(entries[0].0, name) {
        var t := Without(entries[1..], name);
        assert ([entries[0]] + t)[1..] == t;
      }
    }
  }

  lemma {:induction false} CountAppend(a: seq<(string, HeaderValue)>, b: seq<(string, HeaderValue)>, name: string)
    ensures Count(a + b, name) == Count(a, name) + Count(b, name)
  {
    if a == [] {
      assert a + b == b;
    } else {
      assert (a + b)[1..] == a[1..] + b;
      CountAppend(a[1..], b, name);
    }
  }

  /** Dropping the entries of one name does not change where another name is found first. */
  lemma {:induction false} FindWithout(entries: seq<(string, HeaderValue)>, name: string, other: string)
    requires !SameName(other, name)
    ensures (match Find(Without(entries, name), other) case None => None case Some(k) => Some(Without(entries, name)[k].1))
         == (match Find(entries, other) case None => None case Some(k) => Some(entries[k].1))
  {
    if entries != [] {
      FindWithout(entries[1..], name, other);
      if !SameName(entries[0].0, name) {
        var t := Without(entries[1..], name);
        assert ([entries[0]] + t)[1..] == t;
      }
    }
  }

  /** A name found in the front part is found there when more entries follow. */
  lemma FindAppend(a: seq<(string, HeaderValue)>, b: seq<(string, HeaderValue)>, name: string)
    requires Find(b, name).None?
    ensures Find(a + b, name) == Find(a, name)
  {
    match Find(a, name)
    case None =>
    case Some(k) =>
      FirstAt(a + b, name, k);
  }

  /** A name not in the front part is found in the back part, shifted by its length. */
  lemma FindPastWithout(a: seq<(string, HeaderValue)>, b: seq<(string, HeaderValue)>, name: string)
    requires forall k :: 0 <= k < |a| ==> !SameName(a[k].0, name)
    requires |b| > 0 && SameName(b[0].0, name)
    ensures Find(a + b, name) == Some(|a|)
  {
    FirstAt(a + b, name, |a|);
  }

  lemma FirstAt(entries: seq<(string, HeaderValue)>, name: string, k: nat)
    requires k < |entries| && SameName(entries[k].0, name)
    requires forall j :: 0 <= j < k ==> !SameName(entries[j].0, name)
    ensures Find(entries, name) == Some(k)
  {
    var r := Find(entries, name);
    assert r.Some?;
    if r.value < k {
    } else if r.value > k {
    }
  }

  /** The bytes `HeaderValue::to_str` accepts: visible ASCII and horizontal tab. */
  predicate IsVisibleAscii(b: Byte) {
    b == 9 || (32 <= b < 127)
  }

  /** The bytes `HeaderValue::from_str` accepts: anything but control characters, tab excepted. */
  predicate IsValidValueByte(b: Byte) {
    (b >= 32 && b != 127) || b == 9
  }

  /** `HeaderValue::to_str`: the value as text when every byte is visible ASCII or tab. */
  function ToStr(v: HeaderValue): (r: Option<string>)
    ensures r.Some? <==> forall i :: 0 <= i < |v| ==> IsVisibleAscii(v[i])
    ensures r.Some? ==> |r.value| == |v| && forall i :: 0 <= i < |v| ==> r.value[i] as int == v[i]
  {
    if forall i :: 0 <= i < |v| ==> IsVisibleAscii(v[i]) then
      Some(seq(|v|, i requires 0 <= i < |v| => v[i] as char))
    else None
  }

  /** `HeaderValue::from_str`: the UTF-8 bytes of `s`, when none is a forbidden control byte. */
  function FromStr(s: string): (r: Option<HeaderValue>)
    ensures r.Some? <==> forall i :: 0 <= i < |Utf8.Encode(s)| ==> IsValidValueByte(Utf8.Encode(s)[i])
    ensures r.Some? ==> r.value == Utf8.Encode(s)
    ensures r.Some? ==> Utf8.Decode(r.value) == Some(s)
  {
    var bytes := Utf8.Encode(s);
    Utf8.DecodeEncode(s);
    if forall i :: 0 <= i < |bytes| ==> IsValidValueByte(bytes[i]) then Some(bytes) else None
  }

  /** Text made of visible ASCII and tabs survives `from_str` followed by `to_str`. */
  lemma FromStrToStr(s: string)
    requires forall i :: 0 <= i < |s| ==> s[i] == '\t' || (' ' <= s[i] <= '~')
    ensures FromStr(s).Some? && ToStr(FromStr(s).value) == Some(s)
  {
    Utf8.EncodeAscii(s);
    var bytes := Utf8.Encode(s);
    assert forall i :: 0 <= i < |bytes| ==> bytes[i] == s[i] as int;
    assert ToStr(bytes).value == s;
  }

  /**
   * An `HttpResponse`: its status, its header map and its body. The header
   * map is changed in place through `headers_mut()`.
   */
  class Response {
    const status: nat
    var headers: HeaderMap
    var body: seq<Byte>

    /** `HttpResponse::new(status)`, also `HttpResponse::Ok().finish()` and the like. */
    constructor (status: nat)
      ensures this.status == status && headers == EMPTY && body == []
    {
      this.status := status;
      headers := EMPTY;
      body := [];
    }

    /** `self.headers_mut().insert(name, value)`. */
    method InsertHeader(name: string, value: HeaderValue)
      modifies this
      ensures headers == old(headers).Insert(name, value)
      ensures body == old(body)
    {
      headers := headers.Insert(name, value);
    }
  }
}
