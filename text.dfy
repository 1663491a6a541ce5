/** String helpers shared by the models: prefixes, joining and Ruby's Integer#to_s. */
module Text {

  predicate StartsWith(s: string, prefix: string) {
    |prefix| <= |s| && s[..|prefix|] == prefix
  }

  predicate EndsWith(s: string, suffix: string) {
    |suffix| <= |s| && s[|s| - |suffix|..] == suffix
  }

  /** Array#join(sep) over strings. */
  function Join(sep: string, parts: seq<string>): string {
    if |parts| == 0 then ""
    else if |parts| == 1 then parts[0]
    else parts[0] + sep + Join(sep, parts[1..])
  }

  /** Joining one more part adds the separator and that part at the end. */
  lemma {:induction false} JoinSnoc(sep: string, parts: seq<string>, last: string)
    ensures Join(sep, parts + [last]) == if |parts| == 0 then last else Join(sep, parts) + sep + last
  {
    if |parts| >= 2 {
      assert (parts + [last])[1..] == parts[1..] + [last];
      JoinSnoc(sep, parts[1..], last);
    } else if |parts| == 1 {
      assert (parts + [last])[1..] == [last];
    }
  }

  /** Decimal digits of a natural number, most significant first. */
  function NatText(n: nat): (s: string)
    ensures |s| > 0
    ensures forall i :: 0 <= i < |s| ==> '0' <= s[i] <= '9'
  {
    if n < 10 then [DigitChar(n)] else NatText(n / 10) + [DigitChar(n % 10)]
  }

  function DigitChar(d: nat): (c: char)
    requires d < 10
    ensures '0' <= c <= '9'
  {
    ['0', '1', '2', '3', '4', '5', '6', '7', '8', '9'][d]
  }

  /** Integer#to_s: an optional minus sign followed by the decimal digits. */
  function IntText(i: int): string {
    if i < 0 then "-" + NatText(-i) else NatText(i)
  }

  /** Number of occurrences of c in s. */
  function CountChar(s: string, c: char): nat {
    if |s| == 0 then 0 else (if s[0] == c then 1 else 0) + CountChar(s[1..], c)
  }

  lemma {:induction false} CountCharAppend(a: string, b: string, c: char)
    ensures CountChar(a + b, c) == CountChar(a, c) + CountChar(b, c)
  {
    if |a| > 0 {
      assert (a + b)[1..] == a[1..] + b;
      CountCharAppend(a[1..], b, c);
    } else {
      assert a + b == b;
    }
  }

  /** Ruby's `$`: position i ends a line, being the end of the string or just before a newline. */
  predicate AtLineEnd(s: string, i: nat) {
    i == |s| || (i < |s| && s[i] == '\n')
  }

  /** `s =~ /=$/`: some '=' ends a line. */
  predicate EqualsEndsLine(s: string) {
    exists i :: 0 <= i < |s| && s[i] == '=' && AtLineEnd(s, i + 1)
  }

  /** `s.gsub(/=$/, '')`: every '=' that ends a line removed. */
  function DropLineEndEquals(s: string): (r: string)
    ensures |r| <= |s|
  {
    if |s| == 0 then ""
    else if s[0] == '=' && AtLineEnd(s, 1) then DropLineEndEquals(s[1..])
    else [s[0]] + DropLineEndEquals(s[1..])
  }

  /** On a single line, `=~ /=$/` is "ends with '='". */
  lemma EqualsEndsLineSingle(s: string)
    requires '\n' !in s
    ensures EqualsEndsLine(s) <==> EndsWith(s, "=")
  {
    if EndsWith(s, "=") {
      assert s[|s| - 1] == '=' && AtLineEnd(s, |s|);
    }
  }

  /** Appending '=' to a single-line name and removing the line-ending '=' gives the name back. */
  lemma {:induction false} DropAppendedEquals(name: string)
    requires '\n' !in name
    ensures DropLineEndEquals(name + "=") == name
  {
    var s := name + "=";
    if |name| > 0 {
      assert s[1..] == name[1..] + "=";
      assert !AtLineEnd(s, 1);
      DropAppendedEquals(name[1..]);
    }
  }

  /** On one line, removing the line-ending '=' of a name that ends with '=' drops just that last character. */
  lemma DropFinalEquals(name: string)
    ensures '\n' !in name && EndsWith(name, "=") ==> DropLineEndEquals(name) == name[..|name| - 1]
  {
    if '\n' !in name && EndsWith(name, "=") {
      assert name == name[..|name| - 1] + "=";
      DropAppendedEquals(name[..|name| - 1]);
    }
  }
}
