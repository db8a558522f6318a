/**
 * The pure helpers of lightread/models/utils.py that the synchronizers use:
 * `split_chunks` (fixed-size batches, the last one padded) and `api_method`
 * (the URL of a Reader API method with its query string).
 */
module Utils {

  /**
   * ceil(len / n), the number of batches of size n that hold len elements:
   * one batch per n elements, and one more for a remainder.
   */
  function CeilDiv(len: nat, n: nat): (c: nat)
    requires n > 0
    ensures len == 0 ==> c == 0
    ensures len > 0 ==> (c - 1) * n < len <= c * n
    decreases len
  {
    if len == 0 then 0 else if len <= n then 1 else 1 + CeilDiv(len - n, n)
  }

  /** k copies of x. */
  function Repeat<T>(x: T, k: nat): (r: seq<T>)
    ensures |r| == k
    ensures forall i :: 0 <= i < k ==> r[i] == x
  {
    seq(k, _ => x)
  }

  /** The concatenation of a sequence of sequences. */
  function Flatten<T>(ss: seq<seq<T>>): seq<T>
  {
    if ss == [] then [] else ss[0] + Flatten(ss[1..])
  }

  // ---------------------------------------------------------------------
  // split_chunks(itr, chunk_size, fillvalue)
  // ---------------------------------------------------------------------

  /**
   * `zip_longest(*[iter(s)] * n, fillvalue=fill)`: the n copies of one
   * iterator take consecutive elements, so each tuple holds the next n
   * elements of s and the last one is padded with `fill`. For n <= 0 the
   * argument list of zip_longest is empty and nothing is produced.
   */
  function SplitChunks<T>(s: seq<T>, n: int, fill: T): (r: seq<seq<T>>)
    ensures forall i :: 0 <= i < |r| ==> |r[i]| == n
    decreases |s|
  {
    if n <= 0 || |s| == 0 then []
    else if |s| <= n then [s + Repeat(fill, n - |s|)]
    else [s[..n]] + SplitChunks(s[n..], n, fill)
  }

  /** split_chunks yields exactly ceil(L/n) tuples, and none for n <= 0. */
  lemma {:induction false} SplitChunksCount<T>(s: seq<T>, n: int, fill: T)
    ensures n <= 0 ==> SplitChunks(s, n, fill) == []
    ensures n > 0 ==> |SplitChunks(s, n, fill)| == CeilDiv(|s|, n)
    decreases |s|
  {
    if n > 0 && |s| > n {
      SplitChunksCount(s[n..], n, fill);
    }
  }

  /** Each tuple starts with an element of the input: padding never fills a whole tuple. */
  lemma {:induction false} SplitChunksHeads<T>(s: seq<T>, n: int, fill: T)
    requires n > 0
    ensures forall i :: 0 <= i < |SplitChunks(s, n, fill)| ==> SplitChunks(s, n, fill)[i][0] in s
    decreases |s|
  {
    var r := SplitChunks(s, n, fill);
    if |s| > n {
      SplitChunksHeads(s[n..], n, fill);
      forall i | 0 <= i < |r| ensures r[i][0] in s {
        if i > 0 {
          assert r[i] == SplitChunks(s[n..], n, fill)[i - 1];
          assert r[i][0] in s[n..];
        }
      }
    } else if |s| > 0 {
      assert r[0][0] == s[0];
    }
  }

  /** Every element of a tuple is an element of the input or the fill value. */
  lemma {:induction false} SplitChunksElems<T>(s: seq<T>, n: int, fill: T)
    ensures forall i, j :: 0 <= i < |SplitChunks(s, n, fill)| && 0 <= j < |SplitChunks(s, n, fill)[i]| ==>
      SplitChunks(s, n, fill)[i][j] in s || SplitChunks(s, n, fill)[i][j] == fill
    decreases |s|
  {
    var r := SplitChunks(s, n, fill);
    if n > 0 && |s| > n {
      SplitChunksElems(s[n..], n, fill);
      forall i, j | 0 <= i < |r| && 0 <= j < |r[i]| ensures r[i][j] in s || r[i][j] == fill {
        if i > 0 {
          assert r[i] == SplitChunks(s[n..], n, fill)[i - 1];
          assert r[i][j] in s[n..] || r[i][j] == fill;
        } else {
          assert r[i][j] == s[j];
        }
      }
    } else if n > 0 && |s| > 0 {
      forall j | 0 <= j < |r[0]| ensures r[0][j] in s || r[0][j] == fill {
        if j < |s| {
          assert r[0][j] == s[j];
        }
      }
    }
  }

  /**
   * Round trip: joining the tuples gives back the input, in order, followed
   * by n * ceil(L/n) - L copies of the fill value.
   */
  lemma {:induction false} SplitChunksFlatten<T>(s: seq<T>, n: int, fill: T)
    requires n > 0
    ensures n * CeilDiv(|s|, n) >= |s|
    ensures Flatten(SplitChunks(s, n, fill)) == s + Repeat(fill, n * CeilDiv(|s|, n) - |s|)
    decreases |s|
  {
    var r := SplitChunks(s, n, fill);
    if |s| == 0 {
      assert r == [];
    } else if |s| <= n {
      assert r == [s + Repeat(fill, n - |s|)];
      assert Flatten(r) == r[0] + Flatten(r[1..]);
      assert r[1..] == [];
    } else {
      var rest := SplitChunks(s[n..], n, fill);
      SplitChunksFlatten(s[n..], n, fill);
      var k := CeilDiv(|s| - n, n);
      assert r == [s[..n]] + rest;
      assert r[1..] == rest;
      assert Flatten(r) == s[..n] + Flatten(rest);
      assert n * CeilDiv(|s|, n) - |s| == n * k - (|s| - n);
      calc {
        Flatten(r);
        s[..n] + (s[n..] + Repeat(fill, n * k - (|s| - n)));
        (s[..n] + s[n..]) + Repeat(fill, n * k - (|s| - n));
        { assert s[..n] + s[n..] == s; }
        s + Repeat(fill, n * CeilDiv(|s|, n) - |s|);
      }
    }
  }

  // ---------------------------------------------------------------------
  // str(int)
  // ---------------------------------------------------------------------

  function DigitChar(d: nat): (c: char)
    requires d < 10
    ensures '0' <= c <= '9'
  {
    (48 + d) as char
  }

  /** The decimal digits of n, most significant first, as `str(n)` writes them. */
  function Digits(n: nat): (r: string)
    ensures |r| >= 1
    ensures forall i :: 0 <= i < |r| ==> '0' <= r[i] <= '9'
  {
    if n < 10 then [DigitChar(n)] else Digits(n / 10) + [DigitChar(n % 10)]
  }

  /** `str(i)` for a Python int. */
  function IntToString(i: int): string
  {
    if i < 0 then "-" + Digits(-i) else Digits(i)
  }

  // ---------------------------------------------------------------------
  // urllib.parse.urlencode / quote_plus
  // ---------------------------------------------------------------------

  /** Characters quote_plus never escapes: letters, digits and `_.-~`. */
  predicate IsAlwaysSafe(c: char)
  {
    ('A' <= c <= 'Z') || ('a' <= c <= 'z') || ('0' <= c <= '9') ||
    c == '_' || c == '.' || c == '-' || c == '~'
  }

  /** The UTF-8 encoding of one code point, as byte values. */
  function Utf8(c: char): (bytes: seq<nat>)
    ensures 1 <= |bytes| <= 4
    ensures forall i :: 0 <= i < |bytes| ==> bytes[i] < 256
  {
    var cp := c as int;
    if cp < 0x80 then [cp]
    else if cp < 0x800 then [0xC0 + cp / 64, 0x80 + cp % 64]
    else if cp < 0x1_0000 then [0xE0 + cp / 4096, 0x80 + (cp / 64) % 64, 0x80 + cp % 64]
    else [0xF0 + cp / 262144, 0x80 + (cp / 4096) % 64, 0x80 + (cp / 64) % 64, 0x80 + cp % 64]
  }

  function HexDigit(d: nat): (c: char)
    requires d < 16
    ensures IsAlwaysSafe(c)
  {
    if d < 10 then (48 + d) as char else (55 + d) as char
  }

  /** `%XX` with upper-case hex digits for each byte. */
  function PercentEncode(bytes: seq<nat>): (r: string)
    requires forall i :: 0 <= i < |bytes| ==> bytes[i] < 256
    ensures forall i :: 0 <= i < |r| ==> r[i] == '%' || IsAlwaysSafe(r[i])
  {
    if bytes == [] then []
    else ['%', HexDigit(bytes[0] / 16), HexDigit(bytes[0] % 16)] + PercentEncode(bytes[1..])
  }

  function QuoteChar(c: char): (r: string)
    ensures forall i :: 0 <= i < |r| ==> r[i] == '%' || r[i] == '+' || IsAlwaysSafe(r[i])
  {
    if IsAlwaysSafe(c) then [c]
    else if c == ' ' then "+"
    else PercentEncode(Utf8(c))
  }

  /**
   * `quote_plus(s, safe='')`: safe characters are kept, a space becomes `+`,
   * every other character becomes the `%XX` escapes of its UTF-8 bytes.
   * The result never contains the separators `&` and `=`, and a string of
   * safe characters is left as it is.
   */
  function QuotePlus(s: string): (r: string)
    ensures forall i :: 0 <= i < |r| ==> r[i] != '&' && r[i] != '='
    ensures (forall i :: 0 <= i < |s| ==> IsAlwaysSafe(s[i])) ==> r == s
  {
    if s == [] then [] else QuoteChar(s[0]) + QuotePlus(s[1..])
  }

  /** One `key=value` field of an urlencoded query. */
  function EncodePair(p: (string, string)): string
  {
    QuotePlus(p.0) + "=" + QuotePlus(p.1)
  }

  /** `urlencode(pairs)`: the encoded pairs joined with `&`. */
  function UrlEncode(pairs: seq<(string, string)>): string
  {
    if |pairs| == 0 then ""
    else if |pairs| == 1 then EncodePair(pairs[0])
    else EncodePair(pairs[0]) + "&" + UrlEncode(pairs[1..])
  }

  /** `s.split(sep)`: the pieces between separators, at least one. */
  function SplitOn(s: string, sep: char): (r: seq<string>)
    ensures |r| >= 1
  {
    if |s| == 0 then [""]
    else
      var rest := SplitOn(s[1..], sep);
      if s[0] == sep then [""] + rest else [[s[0]] + rest[0]] + rest[1..]
  }

  lemma {:induction false} SplitOnPlain(a: string, sep: char)
    requires forall i :: 0 <= i < |a| ==> a[i] != sep
    ensures SplitOn(a, sep) == [a]
  {
    if |a| > 0 {
      SplitOnPlain(a[1..], sep);
      assert [a[0]] + a[1..] == a;
    }
  }

  lemma {:induction false} SplitOnJoin(a: string, sep: char, b: string)
    requires forall i :: 0 <= i < |a| ==> a[i] != sep
    ensures SplitOn(a + [sep] + b, sep) == [a] + SplitOn(b, sep)
  {
    var s := a + [sep] + b;
    if |a| == 0 {
      assert s[1..] == b;
    } else {
      assert s[1..] == a[1..] + [sep] + b;
      SplitOnJoin(a[1..], sep, b);
      assert [a[0]] + a[1..] == a;
    }
  }

  lemma {:induction false} EncodePairPlain(p: (string, string))
    ensures forall i :: 0 <= i < |EncodePair(p)| ==> EncodePair(p)[i] != '&'
  {
    var a, b := QuotePlus(p.0), QuotePlus(p.1);
    var e := EncodePair(p);
    assert e == a + "=" + b;
    forall i | 0 <= i < |e| ensures e[i] != '&' {
      if i < |a| {
        assert e[i] == a[i];
      } else if i > |a| {
        assert e[i] == b[i - |a| - 1];
      }
    }
  }

  /** The encoded fields of the pairs, in order. */
  function EncodedFields(pairs: seq<(string, string)>): (r: seq<string>)
    ensures |r| == |pairs|
    ensures forall i :: 0 <= i < |pairs| ==> r[i] == EncodePair(pairs[i])
  {
    seq(|pairs|, i requires 0 <= i < |pairs| => EncodePair(pairs[i]))
  }

  /** Splitting an urlencoded query at `&` gives back one field per pair, in order. */
  lemma {:induction false} UrlEncodeFields(pairs: seq<(string, string)>)
    requires |pairs| >= 1
    ensures SplitOn(UrlEncode(pairs), '&') == EncodedFields(pairs)
  {
    EncodePairPlain(pairs[0]);
    if |pairs| == 1 {
      SplitOnPlain(EncodePair(pairs[0]), '&');
    } else {
      var rest := pairs[1..];
      UrlEncodeFields(rest);
      SplitOnJoin(EncodePair(pairs[0]), '&', UrlEncode(rest));
      assert EncodedFields(pairs) == [EncodePair(pairs[0])] + EncodedFields(rest);
    }
  }

  // ---------------------------------------------------------------------
  // api_method(path, getargs)
  // ---------------------------------------------------------------------

  const ApiBase: string := "https://www.google.com/reader/api/0/"

  predicate IsSegmentChar(c: char)
  {
    ('A' <= c <= 'Z') || ('a' <= c <= 'z') || ('0' <= c <= '9') || c == '-' || c == '_'
  }

  /**
   * A relative reference made of plain path segments: no scheme, no leading
   * `/`, no empty segment, no dot segment, no query or fragment. For such a
   * path `urljoin(ApiBase, path)` appends it to the base directory.
   */
  predicate IsPlainPath(path: string)
  {
    (|path| > 0 ==> path[0] != '/') &&
    (forall i :: 0 <= i < |path| ==> IsSegmentChar(path[i]) || path[i] == '/') &&
    (forall i :: 0 <= i < |path| - 1 ==> !(path[i] == '/' && path[i + 1] == '/'))
  }

  function UrlJoin(path: string): string
    requires IsPlainPath(path)
  {
    ApiBase + path
  }

  /** The JSON-output URL of a Reader API method with the given query arguments. */
  function ApiMethod(path: string, getargs: seq<(string, string)>): (url: string)
    requires IsPlainPath(path)
    ensures |url| > |ApiBase + path + "?"| && url[..|ApiBase + path + "?"|] == ApiBase + path + "?"
  {
    OutputJsonField();
    SplitAfterPrefix(ApiBase + path + "?", UrlEncode(getargs + [("output", "json")]));
    UrlJoin(path) + "?" + UrlEncode(getargs + [("output", "json")])
  }

  /** The query `output=json` that every API call ends with. */
  lemma OutputJsonField()
    ensures EncodePair(("output", "json")) == "output=json"
  {
    var o, j := "output", "json";
    assert forall i :: 0 <= i < |o| ==> IsAlwaysSafe(o[i]);
    assert forall i :: 0 <= i < |j| ==> IsAlwaysSafe(j[i]);
  }

  lemma SplitAfterPrefix(prefix: string, q: string)
    ensures (prefix + q)[..|prefix|] == prefix && (prefix + q)[|prefix|..] == q
  {
  }

  /**
   * The URL is the joined base and path, then `?`, then a query whose
   * `&`-separated fields are the caller's arguments in their order and
   * `output=json` last.
   */
  lemma ApiMethodQuery(path: string, getargs: seq<(string, string)>)
    requires IsPlainPath(path)
    ensures var url := ApiMethod(path, getargs);
      var prefix := ApiBase + path + "?";
      |url| > |prefix| && url[..|prefix|] == prefix &&
      SplitOn(url[|prefix|..], '&') == EncodedFields(getargs) + ["output=json"]
  {
    var all := getargs + [("output", "json")];
    var prefix := ApiBase + path + "?";
    var q := UrlEncode(all);
    SplitAfterPrefix(prefix, q);
    UrlEncodeFields(all);
    OutputJsonField();
    assert EncodedFields(all) == EncodedFields(getargs) + [EncodePair(("output", "json"))];
  }

  lemma EncodeOutputOnly()
    ensures UrlEncode([] + [("output", "json")]) == "output=json"
  {
    var all: seq<(string, string)> := [] + [("output", "json")];
    assert all == [("output", "json")];
    OutputJsonField();
  }

  /** With no arguments the query is exactly `output=json`. */
  lemma ApiMethodNoArgs(path: string)
    requires IsPlainPath(path)
    ensures ApiMethod(path, []) == ApiBase + path + "?output=json"
  {
    EncodeOutputOnly();
    QueryMark(UrlJoin(path));
  }

  lemma QueryMark(x: string)
    ensures x + "?" + "output=json" == x + "?output=json"
  {
  }
}
