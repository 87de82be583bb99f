/** `FreeMasonMember.get_wallet`: the member's TwitterUser token has the shape
    `<scheme>:<contract address>:<token id>`; fields 1 and 2 are used verbatim
    as the ownership query, and the owner in the first result row becomes the
    wallet. */
module Wallet {
  import opened Outcomes

  const Colon: char := ':'

  /** Python's `str.join` with a one-character separator. */
  function Join(parts: seq<string>, sep: char): string
    requires |parts| >= 1
  {
    if |parts| == 1 then parts[0] else parts[0] + [sep] + Join(parts[1..], sep)
  }

  /** Number of occurrences of `c` in `s`. */
  function Occurrences(s: string, c: char): nat
  {
    if s == [] then 0 else (if s[0] == c then 1 else 0) + Occurrences(s[1..], c)
  }

  /** Python's `str.split(sep)` with a one-character separator: every occurrence
      of the separator cuts, and empty fields are kept (`"a::b"` gives three
      fields, `""` gives one empty field). */
  function Split(s: string, sep: char): (parts: seq<string>)
    ensures |parts| == Occurrences(s, sep) + 1
    ensures forall k :: 0 <= k < |parts| ==> sep !in parts[k]
    ensures Join(parts, sep) == s
  {
    if s == [] then [""]
    else
      var rest := Split(s[1..], sep);
      if s[0] == sep then [""] + rest
      else [[s[0]] + rest[0]] + rest[1..]
  }

  /** Splitting a join of separator-free fields gives the fields back. */
  lemma {:induction false} SplitJoin(parts: seq<string>, sep: char)
    requires |parts| >= 1
    requires forall k :: 0 <= k < |parts| ==> sep !in parts[k]
    ensures Split(Join(parts, sep), sep) == parts
  {
    if |parts| == 1 {
      SplitWhole(parts[0], sep);
    } else {
      SplitJoin(parts[1..], sep);
      SplitField(parts[0], sep, Join(parts[1..], sep));
      assert [parts[0]] + parts[1..] == parts;
    }
  }

  /** A separator-free prefix `w` becomes the first field. */
  lemma {:induction false} SplitWhole(w: string, sep: char)
    requires sep !in w
    ensures Split(w, sep) == [w]
  {
    if w != [] {
      SplitWhole(w[1..], sep);
      assert [w[0]] + w[1..] == w;
    }
  }

  lemma {:induction false} SplitField(w: string, sep: char, tail: string)
    requires sep !in w
    ensures Split(w + [sep] + tail, sep) == [w] + Split(tail, sep)
  {
    if w == [] {
      assert w + [sep] + tail == [sep] + tail;
      assert ([sep] + tail)[1..] == tail;
    } else {
      SplitField(w[1..], sep, tail);
      assert [w[0]] + w[1..] == w;
      var s := w + [sep] + tail;
      assert s[0] == w[0] && s[1..] == w[1..] + [sep] + tail;
    }
  }


  /** `token.split(':')[1]` and `token.split(':')[2]`, or the IndexError that
      indexing raises when the token has fewer than three fields. */
  function ParseToken(token: string): (r: Result<(string, string)>)
    ensures r.Success? <==> Occurrences(token, Colon) >= 2
    ensures r.Failure? ==> r.error == IndexError
    ensures r.Success? ==> Colon !in r.value.0 && Colon !in r.value.1
  {
    var parts := Split(token, Colon);
    if |parts| < 3 then Failure(IndexError) else Success((parts[1], parts[2]))
  }

  /** Fields 1 and 2 of a token built from separator-free fields are taken
      verbatim: the scheme (field 0) and anything after the token id are ignored. */
  lemma ParseTokenFields(fields: seq<string>)
    requires |fields| >= 3
    requires forall k :: 0 <= k < |fields| ==> Colon !in fields[k]
    ensures ParseToken(Join(fields, Colon)) == Success((fields[1], fields[2]))
  {
    SplitJoin(fields, Colon);
  }

  /** The ownership service's answer: its HTTP status and the `owner_of` field
      of every row of its `result` list, in order. */
  datatype OwnerResponse = OwnerResponse(status: int, owners: seq<string>)

  /** `get_wallet`. `chain(contract, tokenId)` stands for the ownership
      request for that contract and token id. A missing token raises
      AttributeError and a token with fewer than three fields IndexError, both
      before any request; a non-200 answer gives the empty wallet; a 200 answer
      with no rows raises IndexError. */
  function GetWallet(token: Option<string>, chain: (string, string) -> OwnerResponse): (r: Result<string>)
    ensures r.Failure? <==>
      || token.None?
      || Occurrences(token.value, Colon) < 2
      || (var q := ParseToken(token.value).value; chain(q.0, q.1).status == 200 && chain(q.0, q.1).owners == [])
    ensures r.Failure? ==> r.error == if token.None? then AttributeError else IndexError
    ensures r.Success? ==>
      var q := ParseToken(token.value).value;
      var resp := chain(q.0, q.1);
      r.value == if resp.status == 200 then resp.owners[0] else ""
  {
    match token
    case None => Failure(AttributeError)
    case Some(t) =>
      match ParseToken(t)
      case Failure(e) => Failure(e)
      case Success((contract, tokenId)) =>
        var resp := chain(contract, tokenId);
        if resp.status == 200 then
          if |resp.owners| == 0 then Failure(IndexError) else Success(resp.owners[0])
        else Success("")
  }

  /** For a well-formed token, the query is built from fields 1 and 2; a
      non-200 answer to that query yields the empty wallet and a 200 answer
      the first owner. */
  lemma WalletOfToken(fields: seq<string>, chain: (string, string) -> OwnerResponse)
    requires |fields| >= 3
    requires forall k :: 0 <= k < |fields| ==> Colon !in fields[k]
    ensures chain(fields[1], fields[2]).status != 200 ==> GetWallet(Some(Join(fields, Colon)), chain) == Success("")
    ensures chain(fields[1], fields[2]).status == 200 && chain(fields[1], fields[2]).owners != [] ==>
      GetWallet(Some(Join(fields, Colon)), chain) == Success(chain(fields[1], fields[2]).owners[0])
  {
    ParseTokenFields(fields);
  }
}
