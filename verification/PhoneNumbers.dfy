/** Semi-octet phone numbers: `encode_phone_number` and `decode_phone_number`. */
module PhoneNumbers {
  import opened Wrappers
  import opened Text

  const FIELD: nat := 12

  /** Swaps the characters of every pair: semi-octets hold the low digit second. */
  function SwapPairs(s: string): (r: string)
    requires |s| % 2 == 0
    ensures |r| == |s|
  {
    if s == "" then "" else [s[1], s[0]] + SwapPairs(s[2..])
  }

  /** The digits without plus signs, filled up on the right with F to twelve characters. */
  function Padded(phone: string): (r: string) {
    var digits := Without(phone, '+');
    digits + Repeat('F', if |digits| < FIELD then FIELD - |digits| else 0)
  }

  /** What encoding gives; a number of more than twelve characters panics when they are odd. */
  function EncodePhone(phone: string): (r: Outcome<string, ()>) {
    var padded := Padded(phone);
    if |padded| % 2 == 0 then Done(SwapPairs(padded)) else Panicked
  }

  function DecodePhone(encoded: string): (r: Outcome<string, ()>) {
    if |encoded| % 2 == 0 then Done("+" + Without(SwapPairs(encoded), 'F')) else Panicked
  }

  /** One pass over the chunks of two characters, pushing each chunk reversed. */
  method PushSwapped(numbers: string) returns (swapped: Outcome<string, ()>)
    ensures swapped == if |numbers| % 2 == 0 then Done(SwapPairs(numbers)) else Panicked
  {
    var pushed := "";
    var at := 0;
    while at < |numbers|
      invariant 0 <= at <= |numbers|
      invariant at % 2 == 0
      invariant |numbers| % 2 == 0 ==> pushed + SwapPairs(numbers[at..]) == SwapPairs(numbers)
    {
      if at + 1 == |numbers| {
        return Panicked;
      }
      assert numbers[at..][2..] == numbers[at + 2..];
      pushed := pushed + [numbers[at + 1]];
      pushed := pushed + [numbers[at]];
      at := at + 2;
    }
    assert numbers[at..] == "" && pushed + "" == pushed;
    return Done(pushed);
  }

  method EncodePhoneNumber(phone: string) returns (r: Outcome<string, ()>)
    ensures r == EncodePhone(phone)
  {
    r := PushSwapped(Padded(phone));
  }

  method DecodePhoneNumber(encoded: string) returns (r: Outcome<string, ()>)
    ensures r == DecodePhone(encoded)
  {
    r := PushSwapped(encoded);
    if r.Done? {
      r := Done("+" + Without(r.value, 'F'));
    }
  }

  lemma {:induction false} SwapPairsAt(s: string, i: nat)
    requires |s| % 2 == 0 && i < |s|
    ensures SwapPairs(s)[i] == s[if i % 2 == 0 then i + 1 else i - 1]
  {
    if i >= 2 {
      SwapPairsAt(s[2..], i - 2);
    }
  }

  lemma {:induction false} SwapPairsInvolution(s: string)
    requires |s| % 2 == 0
    ensures SwapPairs(SwapPairs(s)) == s
  {
    if s != "" {
      var rest := SwapPairs(s[2..]);
      SwapPairsInvolution(s[2..]);
      assert ([s[1], s[0]] + rest)[2..] == rest;
      assert [s[0], s[1]] + s[2..] == s;
    }
  }

  lemma WithoutPadding(digits: string, count: nat)
    requires 'F' !in digits
    ensures Without(digits + Repeat('F', count), 'F') == digits
  {
    WithoutAppend(digits, Repeat('F', count), 'F');
    WithoutAbsent(digits, 'F');
    WithoutRepeat('F', count);
  }

  lemma WithoutPlus(digits: string)
    requires '+' !in digits
    ensures Without("+" + digits, '+') == digits
  {
    WithoutAbsent(digits, '+');
    assert ("+" + digits)[1..] == digits;
  }

  /** Exactly an odd number of more than twelve characters besides plus signs cannot be encoded. */
  lemma EncodingPanics(phone: string)
    ensures EncodePhone(phone).Panicked? <==> |Without(phone, '+')| > 12 && |Without(phone, '+')| % 2 == 1
    ensures !EncodePhone(phone).Failed?
  {
  }

  /** A phone number as `"+digits"`, with digits that fit the field or pair up beyond it. */
  predicate IsInternational(phone: string) {
    && phone != "" && phone[0] == '+'
    && '+' !in phone[1..] && 'F' !in phone[1..]
    && (|phone[1..]| <= FIELD || |phone[1..]| % 2 == 0)
  }

  /** Exactly the phone numbers of that form come back from encoding and decoding. */
  lemma DecodeEncodePhone(phone: string)
    ensures EncodePhone(phone).Done? && DecodePhone(EncodePhone(phone).value) == Done(phone)
            <==> IsInternational(phone)
  {
    var padded, digits := Padded(phone), Without(phone, '+');
    if IsInternational(phone) {
      assert phone == "+" + phone[1..];
      WithoutPlus(phone[1..]);
      WithoutPadding(digits, if |digits| < FIELD then FIELD - |digits| else 0);
      SwapPairsInvolution(padded);
    }
    if EncodePhone(phone).Done? && DecodePhone(EncodePhone(phone).value) == Done(phone) {
      SwapPairsInvolution(padded);
      var kept := Without(padded, 'F');
      assert phone == "+" + kept && phone[1..] == kept;
      assert '+' !in padded;
      WithoutPlus(kept);
    }
  }

  /** A twelve-character address field: a run of F fills it, and F and + occur nowhere else. */
  predicate IsAddressField(field: string)
    requires |field| == FIELD
  {
    exists n :: 0 <= n <= FIELD
      && SwapPairs(field) == SwapPairs(field)[..n] + Repeat('F', FIELD - n)
      && 'F' !in SwapPairs(field)[..n] && '+' !in SwapPairs(field)[..n]
  }

  /** What encoding makes of a decoded field, before it is swapped again. */
  function Refilled(field: string): string
    requires |field| == FIELD
  {
    Padded("+" + Without(SwapPairs(field), 'F'))
  }

  lemma RefilledAddress(field: string)
    requires |field| == FIELD && IsAddressField(field)
    ensures Refilled(field) == SwapPairs(field)
  {
    var swapped := SwapPairs(field);
    var n :| 0 <= n <= FIELD
      && swapped == swapped[..n] + Repeat('F', FIELD - n)
      && 'F' !in swapped[..n] && '+' !in swapped[..n];
    WithoutPadding(swapped[..n], FIELD - n);
    WithoutPlus(swapped[..n]);
  }

  lemma AddressRefilled(field: string)
    requires |field| == FIELD && Refilled(field) == SwapPairs(field)
    ensures IsAddressField(field)
  {
    var digits := Without("+" + Without(SwapPairs(field), 'F'), '+');
    assert SwapPairs(field)[..|digits|] == digits;
    assert 'F' !in digits && '+' !in digits;
  }

  /** Exactly from such a field does a reply carry the very field that the request arrived with. */
  lemma EncodeDecodePhone(field: string)
    requires |field| == FIELD
    ensures EncodePhone(DecodePhone(field).value) == Done(field) <==> IsAddressField(field)
  {
    SwapPairsInvolution(field);
    if IsAddressField(field) {
      RefilledAddress(field);
    }
    if EncodePhone(DecodePhone(field).value) == Done(field) {
      SwapPairsInvolution(Refilled(field));
      AddressRefilled(field);
    }
  }

  /** Replying to a decoded sender never panics: a field of twelve bytes decodes to few digits. */
  lemma ReplyNumberEncodes(field: string)
    requires |field| <= FIELD && |field| % 2 == 0
    ensures DecodePhone(field).Done? && EncodePhone(DecodePhone(field).value).Done?
    ensures |EncodePhone(DecodePhone(field).value).value| == FIELD
  {
    var kept := Without(SwapPairs(field), 'F');
    WithoutShrinks(SwapPairs(field), 'F');
    assert ("+" + kept)[1..] == kept;
    WithoutShrinks(kept, '+');
  }

  lemma {:induction false} WithoutShrinks(s: string, c: char)
    ensures |Without(s, c)| <= |s|
  {
    if s != "" {
      WithoutShrinks(s[1..], c);
    }
  }
}
