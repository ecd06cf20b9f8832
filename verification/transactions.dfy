/** The transaction string `sender-receiver-value`: how the server splits it
    into fields and reads it back, and how a client builds it. Identifiers
    are not escaped, so an identifier containing '-' changes the field count. */
module Transactions {
  import opened Common
  import opened Decimal
  import opened Amounts

  const Delimiter: char := '-'

  predicate NoHyphen(s: string) {
    forall i :: 0 <= i < |s| ==> s[i] != Delimiter
  }

  /** How many delimiters `s` contains. */
  function Hyphens(s: string): nat {
    multiset(s)[Delimiter]
  }

  lemma NoHyphenIffNone(s: string)
    ensures NoHyphen(s) <==> Hyphens(s) == 0
  {
    if !NoHyphen(s) {
      var i :| 0 <= i < |s| && s[i] == Delimiter;
      assert Delimiter in multiset(s);
    }
  }

  /** Index of the first delimiter, or |s| when there is none. */
  function FirstHyphen(s: string): (k: nat)
    ensures k <= |s| && NoHyphen(s[..k])
    ensures k < |s| ==> s[k] == Delimiter
  {
    if |s| == 0 || s[0] == Delimiter then 0
    else
      var n := 1 + FirstHyphen(s[1..]);
      assert s[..n] == [s[0]] + s[1..][..n - 1];
      n
  }

  /** The tokens `while (std::getline(stream, token, '-'))` collects: an
      empty input gives no token, a token ends at each delimiter (so two
      adjacent delimiters give an empty token), and a delimiter at the very
      end does not start another token. */
  function Split(s: string): (fields: seq<string>)
    ensures forall i :: 0 <= i < |fields| ==> NoHyphen(fields[i])
    decreases |s|
  {
    if |s| == 0 then []
    else
      var k := FirstHyphen(s);
      if k == |s| then [s] else [s[..k]] + Split(s[k + 1..])
  }

  /** The fields written back with a delimiter between neighbours. */
  function Join(fields: seq<string>): string {
    if |fields| == 0 then ""
    else if |fields| == 1 then fields[0]
    else fields[0] + [Delimiter] + Join(fields[1..])
  }

  /** Splitting yields one field per delimiter, plus one more unless the
      input is empty or ends with the delimiter. */
  lemma {:induction false} SplitCount(s: string)
    ensures |Split(s)| == Hyphens(s) + (if |s| > 0 && s[|s| - 1] != Delimiter then 1 else 0)
    decreases |s|
  {
    if |s| > 0 {
      var k := FirstHyphen(s);
      NoHyphenIffNone(s[..k]);
      if k == |s| {
        assert s[..k] == s;
      } else {
        var rest := s[k + 1..];
        assert s == s[..k] + [Delimiter] + rest;
        assert multiset(s) == multiset(s[..k]) + multiset([Delimiter]) + multiset(rest);
        SplitCount(rest);
        if |rest| > 0 {
          assert s[|s| - 1] == rest[|rest| - 1];
        }
      }
    }
  }

  lemma JoinCons(f: string, fs: seq<string>)
    requires |fs| > 0
    ensures Join([f] + fs) == f + [Delimiter] + Join(fs)
  {
    assert ([f] + fs)[1..] == fs;
  }

  /** A hyphen-free head followed by a delimiter is split off as the first field. */
  lemma SplitAfter(head: string, rest: string)
    requires NoHyphen(head)
    ensures Split(head + [Delimiter] + rest) == [head] + Split(rest)
  {
    var s := head + [Delimiter] + rest;
    var k := FirstHyphen(s);
    assert s[|head|] == Delimiter;
    assert k == |head|;
    assert s[..k] == head && s[k + 1..] == rest;
  }

  /** One step of `JoinSplit`: prefixing a field and a delimiter keeps the property. */
  lemma JoinSplitStep(head: string, rest: string)
    requires NoHyphen(head) && |rest| > 0
    requires Join(Split(rest)) == rest
          || (rest[|rest| - 1] == Delimiter && Join(Split(rest)) + [Delimiter] == rest)
    ensures var s := head + [Delimiter] + rest;
            Join(Split(s)) == s || (s[|s| - 1] == Delimiter && Join(Split(s)) + [Delimiter] == s)
  {
    var s := head + [Delimiter] + rest;
    SplitAfter(head, rest);
    JoinCons(head, Split(rest));
    var j := Join(Split(rest));
    assert Join(Split(s)) == head + [Delimiter] + j;
    if j != rest {
      assert s == head + [Delimiter] + j + [Delimiter];
      assert s[|s| - 1] == rest[|rest| - 1];
    }
  }

  /** Joining the fields gives the input back, except that a final
      delimiter, which starts no field, is lost. */
  lemma {:induction false} JoinSplit(s: string)
    ensures Join(Split(s)) == s
         || (|s| > 0 && s[|s| - 1] == Delimiter && Join(Split(s)) + [Delimiter] == s)
    decreases |s|
  {
    if |s| > 0 {
      var k := FirstHyphen(s);
      if k == |s| {
        assert s[..k] == s;
      } else {
        var head, rest := s[..k], s[k + 1..];
        assert s == head + [Delimiter] + rest;
        if |rest| > 0 {
          JoinSplit(rest);
          JoinSplitStep(head, rest);
        } else {
          SplitAfter(head, rest);
        }
      }
    }
  }

  /** Hyphen-free fields, the last one non-empty, survive a join and a split. */
  lemma {:induction false} SplitJoin(fields: seq<string>)
    requires forall i :: 0 <= i < |fields| ==> NoHyphen(fields[i])
    requires |fields| == 0 || |fields[|fields| - 1]| > 0
    ensures Split(Join(fields)) == fields
    decreases |fields|
  {
    if |fields| == 1 {
      var f := fields[0];
      var k := FirstHyphen(f);
      assert k == |f|;
      assert Split(f) == [f];
    } else if |fields| > 1 {
      SplitAfter(fields[0], Join(fields[1..]));
      SplitJoin(fields[1..]);
      assert fields == [fields[0]] + fields[1..];
    }
  }

  /** A parsed transfer. */
  datatype Trx = Trx(sender: string, receiver: string, value: real)

  /** `Server::parse_trx`: exactly three fields, the third read as a number,
      else an exception. It never reports failure by returning false. The
      fields carry no '-', so the value read is never negative. */
  function ParseTrx(trx: string): (r: Result<Trx>)
    ensures r.Success? ==> NoHyphen(r.value.sender) && NoHyphen(r.value.receiver)
    ensures r.Success? ==> r.value.value >= 0.0
  {
    var fields := Split(trx);
    if |fields| != 3 then Failure(IllegalTrxFormat)
    else
      match ParseAmount(fields[2])
      case None => Failure(ValueNotDouble)
      case Some(v) =>
        HyphenFreeIsNonNegative(fields[2]);
        Success(Trx(fields[0], fields[1], v))
  }

  /** The parse fails on the field count exactly when the delimiter count,
      plus one for a final non-delimiter character, is not three. */
  lemma ParseTrxFieldCount(trx: string)
    ensures ParseTrx(trx) == Failure(IllegalTrxFormat)
        <==> Hyphens(trx) + (if |trx| > 0 && trx[|trx| - 1] != Delimiter then 1 else 0) != 3
  {
    SplitCount(trx);
  }

  /** A string that splits into three fields is those fields joined by
      delimiters, possibly followed by one more delimiter. */
  lemma SplitThree(s: string)
    requires |Split(s)| == 3
    ensures var fs := Split(s);
            s == fs[0] + "-" + fs[1] + "-" + fs[2] || s == fs[0] + "-" + fs[1] + "-" + fs[2] + "-"
  {
    var fs := Split(s);
    assert fs[1..] == [fs[1], fs[2]];
    assert fs[1..][1..] == [fs[2]];
    assert Join([fs[2]]) == fs[2];
    assert Join(fs[1..]) == fs[1] + "-" + fs[2];
    assert Join(fs) == fs[0] + "-" + fs[1] + "-" + fs[2];
    JoinSplit(s);
  }

  /** A parsed transaction is its sender, its receiver and a number text
      joined by delimiters, possibly followed by one more delimiter. */
  lemma ParseTrxSound(trx: string)
    requires ParseTrx(trx).Success?
    ensures var t := ParseTrx(trx).value;
            var a := Split(trx)[2];
            && NoHyphen(a) && ParseAmount(a) == Some(t.value)
            && (trx == t.sender + "-" + t.receiver + "-" + a || trx == t.sender + "-" + t.receiver + "-" + a + "-")
  {
    SplitThree(trx);
  }


  /** Round trip: hyphen-free sender and receiver and a non-empty, hyphen-free
      number text come back out of the parse field for field. */
  lemma ParseJoined(sender: string, receiver: string, amount: string)
    requires NoHyphen(sender) && NoHyphen(receiver) && NoHyphen(amount) && |amount| > 0
    ensures ParseTrx(sender + "-" + receiver + "-" + amount)
         == match ParseAmount(amount)
            case None => Failure(ValueNotDouble)
            case Some(v) => Success(Trx(sender, receiver, v))
  {
    var fields := [sender, receiver, amount];
    assert fields[1..] == [receiver, amount];
    assert fields[1..][1..] == [amount];
    assert Join([amount]) == amount;
    assert Join(fields[1..]) == receiver + "-" + amount;
    assert Join(fields) == sender + "-" + receiver + "-" + amount;
    SplitJoin(fields);
  }

  /** The canonical transaction string a client submits (client.cpp:35). */
  function Encode(sender: string, receiver: string, value: real): string {
    sender + "-" + receiver + "-" + FormatAmount(value)
  }

  /** Hyphen-free parties and a non-negative amount parse back, with the
      amount rounded to the six decimals it was printed with. */
  lemma ParseEncoded(sender: string, receiver: string, value: real)
    requires NoHyphen(sender) && NoHyphen(receiver) && value >= 0.0
    ensures ParseTrx(Encode(sender, receiver, value)) == Success(Trx(sender, receiver, Rounded(value)))
  {
    ParseJoined(sender, receiver, FormatAmount(value));
    ParseFormatted(value);
  }

  /** The printed amount carries one '-' when negative and none otherwise. */
  lemma FormattedHyphens(value: real)
    ensures Hyphens(FormatAmount(value)) == if value < 0.0 then 1 else 0
  {
    var a := FormatAmount(value);
    NoHyphenIffNone(a[1..]);
    assert a == [a[0]] + a[1..];
    assert multiset(a) == multiset([a[0]]) + multiset(a[1..]);
  }

  /** The '-' count of an encoded transfer: the two delimiters plus those
      inside the ids and the amount. */
  lemma EncodedHyphens(sender: string, receiver: string, value: real)
    ensures Hyphens(Encode(sender, receiver, value))
         == Hyphens(sender) + Hyphens(receiver) + 2 + Hyphens(FormatAmount(value))
  {
    var a := FormatAmount(value);
    var trx := Encode(sender, receiver, value);
    assert trx == sender + [Delimiter] + receiver + [Delimiter] + a;
    assert multiset(trx) == multiset(sender) + multiset([Delimiter]) + multiset(receiver) + multiset([Delimiter]) + multiset(a);
  }

  /** Any other encoded transfer has the wrong field count: a '-' in either
      identifier, or the sign of a negative amount, adds a field. */
  lemma EncodedParsesIff(sender: string, receiver: string, value: real)
    ensures ParseTrx(Encode(sender, receiver, value)).Success?
        <==> NoHyphen(sender) && NoHyphen(receiver) && value >= 0.0
    ensures !(NoHyphen(sender) && NoHyphen(receiver) && value >= 0.0)
        ==> ParseTrx(Encode(sender, receiver, value)) == Failure(IllegalTrxFormat)
  {
    if NoHyphen(sender) && NoHyphen(receiver) && value >= 0.0 {
      ParseEncoded(sender, receiver, value);
    } else {
      var a := FormatAmount(value);
      var trx := Encode(sender, receiver, value);
      NoHyphenIffNone(sender);
      NoHyphenIffNone(receiver);
      FormattedHyphens(value);
      EncodedHyphens(sender, receiver, value);
      assert trx[|trx| - 1] == a[|a| - 1];
      ParseTrxFieldCount(trx);
    }
  }

}
