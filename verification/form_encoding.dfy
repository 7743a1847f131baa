/**
  The contact form's `encode` helper: it lists an object's keys in
  enumeration order, writes each entry as `enc(key) + "=" + enc(value)`, and
  joins the entries with `&`. The encoder `enc` is a parameter here; the site
  passes `encodeURIComponent`, so a space becomes `%20` and not the `+` of the
  application/x-www-form-urlencoded serializer in section 5 of the WHATWG URL
  Standard. The inverse of the encoder is `Parse` followed by
  `DecodeEntries`: split on `&`, drop empty pieces, split each piece at its
  first `=`, then decode each name and value with the decoder the encoder
  pairs with (`decodeURIComponent` for the site). Unlike the WHATWG parser,
  `Parse` does not turn `+` into a space, and decoding can fail.
 */
module FormEncoding {

  import opened Wrappers
  import opened JsObject

  // ---------------------------------------------------------------------
  // Strings

  /** Occurrences of `c` in `s`. */
  function Count(s: string, c: char): nat {
    if |s| == 0 then 0 else (if s[0] == c then 1 else 0) + Count(s[1..], c)
  }

  lemma {:induction false} CountAppend(a: string, b: string, c: char)
    ensures Count(a + b, c) == Count(a, c) + Count(b, c)
  {
    if |a| > 0 {
      assert (a + b)[1..] == a[1..] + b;
      CountAppend(a[1..], b, c);
    } else {
      assert a + b == b;
    }
  }

  /** A string with no `c` contains `c` zero times. */
  lemma {:induction false} CountAbsent(s: string, c: char)
    requires c !in s
    ensures Count(s, c) == 0
  {
    if |s| > 0 {
      CountAbsent(s[1..], c);
    }
  }

  function TotalLength(parts: seq<string>): nat {
    if |parts| == 0 then 0 else |parts[0]| + TotalLength(parts[1..])
  }

  /** `parts.join(sep)`: the parts with one separator between neighbours. */
  function Join(parts: seq<string>, sep: char): (s: string)
    ensures |parts| == 0 ==> s == ""
    ensures |parts| > 0 ==> |s| == TotalLength(parts) + |parts| - 1
  {
    if |parts| == 0 then ""
    else if |parts| == 1 then parts[0]
    else parts[0] + [sep] + Join(parts[1..], sep)
  }

  /** `s.split(sep)` for a one-character separator: the empty string splits into one empty piece. */
  function Split(s: string, sep: char): (parts: seq<string>)
    ensures |parts| >= 1
    decreases |s|
  {
    if |s| == 0 then [""]
    else
      var rest := Split(s[1..], sep);
      if s[0] == sep then [""] + rest else [[s[0]] + rest[0]] + rest[1..]
  }

  /** A string without the separator splits into itself. */
  lemma {:induction false} SplitNoSeparator(s: string, sep: char)
    requires sep !in s
    ensures Split(s, sep) == [s]
  {
    if |s| > 0 {
      SplitNoSeparator(s[1..], sep);
      assert [s[0]] + s[1..] == s;
    }
  }

  /** Splitting `p + sep + t`, where `p` has no separator, yields `p` and then the pieces of `t`. */
  lemma {:induction false} SplitAtFirstSeparator(p: string, sep: char, t: string)
    requires sep !in p
    ensures Split(p + [sep] + t, sep) == [p] + Split(t, sep)
    decreases |p|
  {
    var s := p + [sep] + t;
    if |p| == 0 {
      assert s[0] == sep && s[1..] == t;
    } else {
      assert s[0] == p[0] && s[1..] == p[1..] + [sep] + t;
      SplitAtFirstSeparator(p[1..], sep, t);
      assert [p[0]] + p[1..] == p;
    }
  }

  /** Splitting undoes joining, when no part contains the separator. */
  lemma {:induction false} SplitJoin(parts: seq<string>, sep: char)
    requires |parts| >= 1
    requires forall i :: 0 <= i < |parts| ==> sep !in parts[i]
    ensures Split(Join(parts, sep), sep) == parts
  {
    if |parts| == 1 {
      SplitNoSeparator(parts[0], sep);
    } else {
      SplitJoin(parts[1..], sep);
      SplitAtFirstSeparator(parts[0], sep, Join(parts[1..], sep));
      assert [parts[0]] + parts[1..] == parts;
    }
  }

  /** The separators in a join: those inside the parts plus one between each neighbouring pair. */
  lemma {:induction false} CountInJoin(parts: seq<string>, sep: char)
    requires |parts| >= 1
    requires forall i :: 0 <= i < |parts| ==> sep !in parts[i]
    ensures Count(Join(parts, sep), sep) == |parts| - 1
  {
    if |parts| == 1 {
      CountAbsent(parts[0], sep);
    } else {
      CountInJoin(parts[1..], sep);
      CountAbsent(parts[0], sep);
      CountAppend(parts[0] + [sep], Join(parts[1..], sep), sep);
      CountAppend(parts[0], [sep], sep);
    }
  }

  // ---------------------------------------------------------------------
  // The encoder

  /** An encoder whose output never holds a form delimiter. */
  ghost predicate EncoderSafe(enc: string -> string) {
    forall s :: '&' !in enc(s) && '=' !in enc(s)
  }

  /** One entry: `enc(key) + "=" + enc(value)`. */
  function EncodePair(enc: string -> string, key: string, value: string): (t: string)
    ensures EncoderSafe(enc) ==> '&' !in t
  {
    enc(key) + "=" + enc(value)
  }

  /** The entries, in key enumeration order. */
  function EncodedPairs(enc: string -> string, data: Obj): (pairs: seq<string>)
    ensures |pairs| == |data|
  {
    seq(|data|, i requires 0 <= i < |data| => EncodePair(enc, data[i].0, data[i].1))
  }

  /**
    The entries as the source builds them: `Object.keys(data).map(key => …data[key]…)`,
    reading each value back by its key.
   */
  function EncodedPairsByKey(enc: string -> string, data: Obj): (pairs: seq<string>)
    ensures |pairs| == |data|
  {
    var ks := Keys(data);
    seq(|ks|, i requires 0 <= i < |ks| => EncodePair(enc, ks[i], Lookup(data, ks[i]).value))
  }

  /** For an object, whose keys are distinct, reading values by key gives the entries in position order. */
  lemma EncodedPairsReadByKey(enc: string -> string, data: Obj)
    requires DistinctKeys(data)
    ensures EncodedPairsByKey(enc, data) == EncodedPairs(enc, data)
  {
    forall i | 0 <= i < |data|
      ensures EncodedPairsByKey(enc, data)[i] == EncodedPairs(enc, data)[i]
    {
      KeysAt(data, i);
      LookupAt(data, i);
    }
  }

  /** The request body the form sends for `data`. */
  function Encode(enc: string -> string, data: Obj): (body: string)
    ensures |data| == 0 ==> body == ""
  {
    Join(EncodedPairs(enc, data), '&')
  }

  /** A body has one `&` fewer than it has entries. */
  lemma AmpersandCount(enc: string -> string, data: Obj)
    requires EncoderSafe(enc)
    requires |data| >= 1
    ensures Count(Encode(enc, data), '&') == |data| - 1
  {
    CountInJoin(EncodedPairs(enc, data), '&');
  }

  /** A body is as long as its entries together, plus one `&` between each neighbouring pair. */
  lemma BodyLength(enc: string -> string, data: Obj)
    requires |data| >= 1
    ensures |Encode(enc, data)| == TotalLength(EncodedPairs(enc, data)) + |data| - 1
  {
  }

  /** Splitting a body on `&` recovers its entries in key order; each entry splits on `=` into encoded key and value. */
  lemma SplitBody(enc: string -> string, data: Obj)
    requires EncoderSafe(enc)
    requires |data| >= 1
    ensures Split(Encode(enc, data), '&') == EncodedPairs(enc, data)
    ensures forall i :: 0 <= i < |data| ==>
              Split(EncodedPairs(enc, data)[i], '=') == [enc(data[i].0), enc(data[i].1)]
  {
    SplitJoin(EncodedPairs(enc, data), '&');
    forall i | 0 <= i < |data|
      ensures Split(EncodedPairs(enc, data)[i], '=') == [enc(data[i].0), enc(data[i].1)]
    {
      var k := enc(data[i].0);
      var v := enc(data[i].1);
      assert EncodedPairs(enc, data)[i] == k + ['='] + v;
      SplitAtFirstSeparator(k, '=', v);
      SplitNoSeparator(v, '=');
    }
  }

  /** A body begins with its first entry; when more entries follow, an `&` comes right after it. */
  lemma BodyBeginsWithFirstPair(enc: string -> string, data: Obj)
    requires |data| >= 1
    ensures var p := EncodePair(enc, data[0].0, data[0].1);
            var body := Encode(enc, data);
            && (|data| == 1 ==> body == p)
            && (|data| >= 2 ==> |body| > |p| && body[..|p| + 1] == p + "&")
  {
    var pairs := EncodedPairs(enc, data);
    if |data| >= 2 {
      var rest := Join(pairs[1..], '&');
      assert Encode(enc, data) == pairs[0] + ['&'] + rest;
      assert (pairs[0] + ['&'] + rest)[..|pairs[0]| + 1] == pairs[0] + ['&'];
    }
  }

  // ---------------------------------------------------------------------
  // The parser

  /** A piece split at its first `=`; without one, the whole piece is the name and the value is empty. */
  function SplitPair(piece: string): (nv: (string, string))
    ensures '=' !in nv.0
    decreases |piece|
  {
    if |piece| == 0 then ("", "")
    else if piece[0] == '=' then ("", piece[1..])
    else
      var (n, v) := SplitPair(piece[1..]);
      ([piece[0]] + n, v)
  }

  lemma {:induction false} SplitPairOfPair(n: string, v: string)
    requires '=' !in n
    ensures SplitPair(n + "=" + v) == (n, v)
  {
    if |n| > 0 {
      assert (n + "=" + v)[1..] == n[1..] + "=" + v;
      SplitPairOfPair(n[1..], v);
      assert [n[0]] + n[1..] == n;
    } else {
      assert (n + "=" + v)[1..] == v;
    }
  }

  /** The non-empty pieces, each split into name and value. */
  function ParsePieces(pieces: seq<string>): seq<(string, string)> {
    if |pieces| == 0 then []
    else if pieces[0] == "" then ParsePieces(pieces[1..])
    else [SplitPair(pieces[0])] + ParsePieces(pieces[1..])
  }

  /** The name/value list a body parses to. */
  function Parse(body: string): seq<(string, string)> {
    ParsePieces(Split(body, '&'))
  }

  /** Each entry's encoded key and encoded value, in order. */
  function EncodedEntries(enc: string -> string, data: Obj): (entries: seq<(string, string)>)
    ensures |entries| == |data|
  {
    seq(|data|, i requires 0 <= i < |data| => (enc(data[i].0), enc(data[i].1)))
  }

  /** Parsing a body gives back each entry's encoded key and encoded value, in order. */
  lemma {:induction false} ParseEncode(enc: string -> string, data: Obj)
    requires EncoderSafe(enc)
    ensures Parse(Encode(enc, data)) == EncodedEntries(enc, data)
  {
    if |data| == 0 {
      assert Split("", '&') == [""];
    } else {
      SplitBody(enc, data);
      ParsePiecesOfPairs(enc, data);
    }
  }

  lemma {:induction false} ParsePiecesOfPairs(enc: string -> string, data: Obj)
    requires EncoderSafe(enc)
    ensures ParsePieces(EncodedPairs(enc, data)) == EncodedEntries(enc, data)
    decreases |data|
  {
    if |data| > 0 {
      var pieces := EncodedPairs(enc, data);
      var k := enc(data[0].0);
      var v := enc(data[0].1);
      EncodedCons(enc, data);
      assert pieces[0][|k|] == '=';
      SplitPairOfPair(k, v);
      ParsePiecesOfPairs(enc, data[1..]);
      assert ParsePieces(pieces) == [SplitPair(pieces[0])] + ParsePieces(pieces[1..]);
    }
  }

  /** The entries of a non-empty object are its first entry's, then those of the rest. */
  lemma EncodedCons(enc: string -> string, data: Obj)
    requires |data| > 0
    ensures EncodedPairs(enc, data)[0] == enc(data[0].0) + "=" + enc(data[0].1)
    ensures EncodedPairs(enc, data)[1..] == EncodedPairs(enc, data[1..])
    ensures EncodedEntries(enc, data) == [(enc(data[0].0), enc(data[0].1))] + EncodedEntries(enc, data[1..])
  {
  }

  /** Decode each parsed name and value; `None` if any of them fails to decode. */
  function DecodeEntries(dec: string -> Option<string>, entries: seq<(string, string)>): Option<Obj> {
    if |entries| == 0 then Some([])
    else match (dec(entries[0].0), dec(entries[0].1), DecodeEntries(dec, entries[1..]))
      case (Some(k), Some(v), Some(rest)) => Some([(k, v)] + rest)
      case _ => None
  }

  lemma {:induction false} DecodeEncodedEntries(enc: string -> string, dec: string -> Option<string>, data: Obj)
    requires forall s :: dec(enc(s)) == Some(s)
    ensures DecodeEntries(dec, EncodedEntries(enc, data)) == Some(data)
  {
    if |data| > 0 {
      var entries := EncodedEntries(enc, data);
      var tail := EncodedEntries(enc, data[1..]);
      DecodeEncodedEntries(enc, dec, data[1..]);
      assert entries[1..] == tail;
      assert dec(entries[0].0) == Some(data[0].0);
      assert dec(entries[0].1) == Some(data[0].1);
      assert DecodeEntries(dec, entries) == Some([(data[0].0, data[0].1)] + data[1..]);
      assert [data[0]] + data[1..] == data;
    }
  }

  /** With an encoder that the decoder inverts, parsing and decoding a body gives back the object. */
  lemma RoundTrip(enc: string -> string, dec: string -> Option<string>, data: Obj)
    requires EncoderSafe(enc)
    requires forall s :: dec(enc(s)) == Some(s)
    ensures DecodeEntries(dec, Parse(Encode(enc, data))) == Some(data)
  {
    ParseEncode(enc, data);
    DecodeEncodedEntries(enc, dec, data);
  }
}
