/** Record types of the parser and the address-format check (eth_parser/types.go). */
module EthTypes {

  datatype Option<+T> = None | Some(value: T)

  /** One transaction as the node reports it; every field is the node's own text. */
  datatype Transaction = Transaction(
    from: string,
    to: string,
    value: string,
    blockNumber: string,
    hash: string)

  /** A block fetched with full transaction objects, in the node's order. */
  datatype Block = Block(number: string, transactions: seq<Transaction>)

  /** Go's strings.HasPrefix. It compares bytes; for an ASCII prefix such as "0x" that is
      the same as comparing the leading characters, since an ASCII byte only ever
      encodes an ASCII character in UTF-8. */
  predicate HasPrefix(s: string, prefix: string)
  {
    |prefix| <= |s| && s[..|prefix|] == prefix
  }

  predicate IsAscii(c: char)
  {
    c as int < 0x80
  }

  /** The number of bytes UTF-8 spends on one character. */
  function RuneLen(c: char): (n: nat)
    ensures 1 <= n <= 4
    ensures n == 1 <==> IsAscii(c)
  {
    if c as int < 0x80 then 1
    else if c as int < 0x800 then 2
    else if c as int < 0x1_0000 then 3
    else 4
  }

  /** Go's len of a string: its length in UTF-8 bytes, not in characters. */
  function Utf8Len(s: string): (n: nat)
    ensures |s| <= n <= 4 * |s|
  {
    if s == [] then 0 else RuneLen(s[0]) + Utf8Len(s[1..])
  }

  /** A text is as long in bytes as in characters exactly when it is all ASCII. */
  lemma {:induction false} Utf8LenAscii(s: string)
    ensures Utf8Len(s) == |s| <==> forall i :: 0 <= i < |s| ==> IsAscii(s[i])
  {
    if s != [] {
      var rest := s[1..];
      Utf8LenAscii(rest);
      if Utf8Len(s) == |s| {
        assert RuneLen(s[0]) == 1 && Utf8Len(rest) == |rest|;
        forall i | 0 <= i < |s|
          ensures IsAscii(s[i])
        {
          if i > 0 {
            assert s[i] == rest[i - 1];
          }
        }
      }
      if forall i :: 0 <= i < |s| ==> IsAscii(s[i]) {
        forall i | 0 <= i < |rest|
          ensures IsAscii(rest[i])
        {
          assert rest[i] == s[i + 1];
        }
      }
    }
  }

  /** The prefix "0x" adds two bytes. */
  lemma Utf8LenPrefixed(body: string)
    ensures Utf8Len("0x" + body) == 2 + Utf8Len(body)
  {
    var s := "0x" + body;
    assert s[1..] == "x" + body;
    assert s[1..][1..] == body;
  }

  /** The address check applied before an address reaches the parser: the literal prefix
      "0x" and a total length of 42 bytes. An accepted address therefore has between 11
      and 42 characters and starts with '0' followed by lower-case 'x'. */
  function ValidateEthAddr(arg: string): (ok: bool)
    ensures ok ==> 11 <= |arg| <= 42 && arg[0] == '0' && arg[1] == 'x'
  {
    HasPrefix(arg, "0x") && Utf8Len(arg) == 42
  }

  /** The check, character by character: 42 bytes, the first two characters being '0'
      and lower-case 'x'. */
  lemma ValidateEthAddrShape(arg: string)
    ensures ValidateEthAddr(arg) <==> Utf8Len(arg) == 42 && 2 <= |arg| && arg[0] == '0' && arg[1] == 'x'
  {
    if Utf8Len(arg) == 42 && 2 <= |arg| && arg[0] == '0' && arg[1] == 'x' {
      assert arg[..2] == "0x";
    }
  }

  /** A "0x"-prefixed text of any byte length other than 42 (41 and 43 among them) is refused. */
  lemma ValidateEthAddrRejectsLength(arg: string)
    requires HasPrefix(arg, "0x") && Utf8Len(arg) != 42
    ensures !ValidateEthAddr(arg)
  {
  }

  /** The upper-case prefix "0X" is refused. */
  lemma ValidateEthAddrRejectsUpperPrefix(body: string)
    ensures !ValidateEthAddr("0X" + body)
  {
    var s := "0X" + body;
    assert s[1] == 'X';
  }

  /** After the prefix only the byte length of the rest is inspected: "0x" + body passes
      exactly when body takes 40 bytes, hexadecimal or not. */
  lemma ValidateEthAddrBody(body: string)
    ensures ValidateEthAddr("0x" + body) <==> Utf8Len(body) == 40
  {
    Utf8LenPrefixed(body);
    assert ("0x" + body)[..2] == "0x";
  }

  /** For an ASCII body, bytes and characters agree: exactly 40 characters pass. */
  lemma ValidateEthAddrAsciiBody(body: string)
    requires forall i :: 0 <= i < |body| ==> IsAscii(body[i])
    ensures ValidateEthAddr("0x" + body) <==> |body| == 40
  {
    ValidateEthAddrBody(body);
    Utf8LenAscii(body);
  }

  /** A body of 40 characters of which one is not ASCII takes more than 40 bytes and is
      refused. */
  lemma ValidateEthAddrWideBody(body: string, k: nat)
    requires |body| == 40 && k < |body| && !IsAscii(body[k])
    ensures !ValidateEthAddr("0x" + body)
  {
    ValidateEthAddrBody(body);
    Utf8LenAscii(body);
  }

  /** Neither the empty text nor the bare prefix passes. */
  lemma ValidateEthAddrRejectsShort()
    ensures !ValidateEthAddr("") && !ValidateEthAddr("0x")
  {
  }
}
