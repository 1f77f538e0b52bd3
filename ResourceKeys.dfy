/**
 The derived identity of a resource: `resource_type + "_" + str(i) + "_" +
 description[:20]`, with `i` the resource's 1-based position in its resource-type
 list. Neither the stage nor the subject is part of the key.
 */
module ResourceKeys {

  datatype Option<T> = None | Some(value: T)

  /** The number of description characters that enter the key. */
  const PrefixLength: nat := 20

  /** The decimal digit for `d`. */
  function DigitChar(d: nat): (ch: char)
    requires d < 10
    ensures '0' <= ch <= '9' && DigitValue(ch) == d
  {
    (('0' as int) + d) as char
  }

  /** The value of a decimal digit character (0 for any other character). */
  function DigitValue(ch: char): nat
  {
    if '0' <= ch <= '9' then (ch as int - '0' as int) as nat else 0
  }

  /** Python's `str(n)` for a non-negative integer. */
  function DecimalString(n: nat): (s: string)
    ensures |s| > 0
    ensures forall k :: 0 <= k < |s| ==> '0' <= s[k] <= '9'
    ensures n > 0 ==> s[0] != '0'
    decreases n
  {
    if n < 10 then [DigitChar(n)] else DecimalString(n / 10) + [DigitChar(n % 10)]
  }

  /** Reads a string of decimal digits back as a number. */
  function ParseDecimal(s: string): nat
    decreases |s|
  {
    if s == [] then 0 else ParseDecimal(s[..|s| - 1]) * 10 + DigitValue(s[|s| - 1])
  }

  lemma {:induction false} ParseDecimalString(n: nat)
    ensures ParseDecimal(DecimalString(n)) == n
    decreases n
  {
    if n >= 10 {
      var s := DecimalString(n);
      assert s[..|s| - 1] == DecimalString(n / 10);
      ParseDecimalString(n / 10);
    }
  }

  /** Python's `s[:n]`: the whole string when it is shorter than `n`. */
  function Prefix(s: string, n: nat): (p: string)
    ensures |p| == if |s| < n then |s| else n
    ensures p <= s
  {
    if |s| <= n then s else s[..n]
  }

  /** The key under which a resource's completion is recorded (app.py lines 81 and 243):
      it begins with the resource type and `_`, and the description contributes at most
      its first 20 characters. Stage and subject play no part. */
  function ResourceKey(resourceType: string, position: nat, description: string): (key: string)
    ensures resourceType + "_" <= key
    ensures |key| <= |resourceType| + |DecimalString(position)| + 2 + PrefixLength
    ensures |description| >= PrefixLength ==> |key| == |resourceType| + |DecimalString(position)| + 2 + PrefixLength
  {
    resourceType + "_" + DecimalString(position) + "_" + Prefix(description, PrefixLength)
  }

  /** The index of the first `ch` in `s`, or -1 when there is none. */
  function IndexOf(s: string, ch: char): (r: int)
    ensures -1 <= r < |s|
    ensures r == -1 <==> ch !in s
    ensures 0 <= r ==> s[r] == ch && ch !in s[..r]
    decreases |s|
  {
    if s == [] then -1
    else if s[0] == ch then 0
    else
      var k := IndexOf(s[1..], ch);
      assert k >= 0 ==> s[..k + 1] == [s[0]] + s[1..][..k];
      if k < 0 then -1 else k + 1
  }

  lemma IndexOfFirst(s: string, ch: char, k: nat)
    requires k < |s| && s[k] == ch && ch !in s[..k]
    ensures IndexOf(s, ch) == k
  {
    assert s[k] in s;
  }

  /** The three parts a key is made of. */
  datatype KeyParts = KeyParts(resourceType: string, position: nat, prefix: string)

  /** Reads a key back: the text before the first `_`, the number up to the next `_`, the rest. */
  function SplitKey(key: string): Option<KeyParts>
  {
    var a := IndexOf(key, '_');
    if a < 0 then None
    else
      var rest := key[a + 1..];
      var b := IndexOf(rest, '_');
      if b < 0 then None
      else Some(KeyParts(key[..a], ParseDecimal(rest[..b]), rest[b + 1..]))
  }

  /** `SplitKey` cuts at the first `_` (index `a`) and at the first `_` after it. */
  lemma SplitKeyAt(key: string, a: nat, b: nat)
    requires a < |key| && key[a] == '_' && '_' !in key[..a]
    requires b < |key[a + 1..]| && key[a + 1..][b] == '_' && '_' !in key[a + 1..][..b]
    ensures SplitKey(key) == Some(KeyParts(key[..a], ParseDecimal(key[a + 1..][..b]), key[a + 1..][b + 1..]))
  {
    IndexOfFirst(key, '_', a);
    IndexOfFirst(key[a + 1..], '_', b);
  }

  /** Splitting `t + "_" + digits + "_" + prefix` for a `t` and a `digits` without `_`
      gives the three parts back. */
  lemma SplitParts(t: string, digits: string, prefix: string)
    requires '_' !in t && '_' !in digits
    ensures SplitKey(t + "_" + digits + "_" + prefix) == Some(KeyParts(t, ParseDecimal(digits), prefix))
  {
    var key := t + "_" + digits + "_" + prefix;
    KeyLayout(t, digits, prefix);
    SplitKeyAt(key, |t|, |digits|);
  }

  /** Where the parts of `t + "_" + digits + "_" + prefix` sit. */
  lemma KeyLayout(t: string, digits: string, prefix: string)
    ensures var key := t + "_" + digits + "_" + prefix;
            && |t| < |key| && key[..|t|] == t && key[|t|] == '_'
            && |digits| < |key[|t| + 1..]|
            && key[|t| + 1..][..|digits|] == digits && key[|t| + 1..][|digits|] == '_'
            && key[|t| + 1..][|digits| + 1..] == prefix
  {
    var rest := digits + ("_" + prefix);
    var key := t + "_" + digits + "_" + prefix;
    assert key == t + ("_" + rest);
    assert key[|t| + 1..] == rest;
  }

  /** A key splits back into its resource type, its position and the description prefix,
      provided the resource type itself holds no `_`. */
  lemma SplitResourceKey(resourceType: string, position: nat, description: string)
    requires '_' !in resourceType
    ensures SplitKey(ResourceKey(resourceType, position, description))
            == Some(KeyParts(resourceType, position, Prefix(description, PrefixLength)))
  {
    var digits := DecimalString(position);
    assert '_' !in digits by {
      forall k | 0 <= k < |digits| ensures digits[k] != '_' {}
    }
    SplitParts(resourceType, digits, Prefix(description, PrefixLength));
    ParseDecimalString(position);
  }

  /** For resource types without `_`, two keys are equal exactly when type, position and
      20-character description prefix are equal; stage and subject play no part. */
  lemma ResourceKeyEquality(t1: string, i1: nat, d1: string, t2: string, i2: nat, d2: string)
    requires '_' !in t1 && '_' !in t2
    ensures ResourceKey(t1, i1, d1) == ResourceKey(t2, i2, d2)
            <==> t1 == t2 && i1 == i2 && Prefix(d1, PrefixLength) == Prefix(d2, PrefixLength)
  {
    SplitResourceKey(t1, i1, d1);
    SplitResourceKey(t2, i2, d2);
  }

  /** Two descriptions that share their first 20 characters give the same key. */
  lemma SharedPrefixCollides(resourceType: string, position: nat, d1: string, d2: string)
    requires |d1| >= PrefixLength && |d2| >= PrefixLength
    requires d1[..PrefixLength] == d2[..PrefixLength]
    ensures ResourceKey(resourceType, position, d1) == ResourceKey(resourceType, position, d2)
  {
  }

  /** A resource type that holds `_` can collide with a different type, position and description. */
  lemma UnderscoreTypeCollides()
    ensures ResourceKey("a_1", 2, "x") == ResourceKey("a", 1, "2_x")
  {
    assert DecimalString(2) == "2";
    assert DecimalString(1) == "1";
  }
}
