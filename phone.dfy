/** Phone numbers entered on the profile are stored in the `+62` form: white space, dashes and
    parentheses are dropped, and the local forms `08…` and `8…` get the Indonesian country code. */
module Phone {
  import opened Base
  import opened Strings

  const CountryPrefix := "+62"

  /** The class `[\s\-\(\)]`. */
  predicate IsSeparator(c: char)
  {
    IsJsWhitespace(c) || c == '-' || c == '(' || c == ')'
  }

  /** `phone.replace(/[\s\-\(\)]/g, '')` */
  function Clean(phone: string): string
  {
    RemoveWhere(phone, IsSeparator)
  }

  /** The normalisation applied to a non-empty phone number. The `+62…` case and every other form
      keep the cleaned text. */
  function NormalizePhone(phone: string): (r: string)
    ensures forall k :: 0 <= k < |r| ==> !IsSeparator(r[k])
  {
    var s := Clean(phone);
    if StartsWith(s, "08") then CountryPrefix + s[1..]
    else if StartsWith(s, "8") && !StartsWith(s, "+") then CountryPrefix + s
    else s
  }

  /** The phone column written by `PATCH /auth/me`: `normalizedPhone || null`, where a missing or
      empty phone is not normalised at all. */
  function StoredPhone(phone: Option<string>): (r: Option<string>)
    ensures r.None? <==> phone.None? || Clean(phone.value) == ""
    ensures r.Some? ==> r.value == NormalizePhone(phone.value) && r.value != ""
  {
    if phone.None? || phone.value == "" then None
    else
      var n := NormalizePhone(phone.value);
      if n == "" then None else Some(n)
  }

  /** A number already normalised is left as it is. */
  lemma NormalizeIdempotent(phone: string)
    ensures NormalizePhone(NormalizePhone(phone)) == NormalizePhone(phone)
  {
    var r := NormalizePhone(phone);
    RemoveNothing(r, IsSeparator);
    assert Clean(r) == r;
    var s := Clean(phone);
    if StartsWith(s, "08") || (StartsWith(s, "8") && !StartsWith(s, "+")) {
      assert r[0] == '+';
    }
  }

  /** The local forms `08…` and `8…` and the international form `+628…` of the same number are
      stored alike. */
  lemma LocalFormsAgree(subscriber: string)
    requires forall k :: 0 <= k < |subscriber| ==> !IsSeparator(subscriber[k])
    ensures NormalizePhone("08" + subscriber) == CountryPrefix + "8" + subscriber
    ensures NormalizePhone("8" + subscriber) == CountryPrefix + "8" + subscriber
    ensures NormalizePhone(CountryPrefix + "8" + subscriber) == CountryPrefix + "8" + subscriber
  {
    var short := "8" + subscriber;
    var local, full := "0" + short, CountryPrefix + short;
    assert "08" + subscriber == local && CountryPrefix + "8" + subscriber == full;
    CleanPrefixed("8", subscriber);
    CleanPrefixed("0", short);
    CleanPrefixed(CountryPrefix, short);
    assert local[..2] == "08" && local[1..] == short;
    assert short[..1] == "8" && !StartsWith(short, "08");
    assert full[..1] == "+" && full[..2] != "08";
  }

  /** A number already in the `+62` form, landlines such as `+6221…` included, is kept as its
      cleaned text. */
  lemma InternationalKept(rest: string)
    requires forall k :: 0 <= k < |rest| ==> !IsSeparator(rest[k])
    ensures NormalizePhone(CountryPrefix + rest) == CountryPrefix + rest
  {
    var full := CountryPrefix + rest;
    CleanPrefixed(CountryPrefix, rest);
    assert full[..1] == "+" && full[..2] != "08";
  }

  /** The cleaned text is kept exactly when it starts with neither `08` nor `8`: every form other
      than the two local ones (`+62…`, `62…`, `021…`, …) comes back cleaned but otherwise as
      entered, and the two local forms are always rewritten. */
  lemma CleanedKeptIff(phone: string)
    ensures NormalizePhone(phone) == Clean(phone)
      <==> !StartsWith(Clean(phone), "08") && !StartsWith(Clean(phone), "8")
  {
    var s := Clean(phone);
    var r := NormalizePhone(phone);
    if StartsWith(s, "08") {
      assert r[0] == '+' != s[0];
    } else if StartsWith(s, "8") {
      assert s[0] == '8';
      assert r[0] == '+' != s[0];
    }
  }

  /** Cleaning leaves a string without separators unchanged. */
  lemma CleanPrefixed(prefix: string, s: string)
    requires forall k :: 0 <= k < |prefix| ==> !IsSeparator(prefix[k])
    requires forall k :: 0 <= k < |s| ==> !IsSeparator(s[k])
    ensures Clean(prefix + s) == prefix + s
  {
    RemoveNothing(prefix, IsSeparator);
    RemoveNothing(s, IsSeparator);
    RemoveAppend(prefix, s, IsSeparator);
  }

  /** Separators anywhere in the input do not change the result. */
  lemma SeparatorsIgnored(before: string, c: char, after: string)
    requires IsSeparator(c)
    ensures NormalizePhone(before + [c] + after) == NormalizePhone(before + after)
  {
    CleanDropsSeparator(before, c, after);
  }

  lemma CleanDropsSeparator(before: string, c: char, after: string)
    requires IsSeparator(c)
    ensures Clean(before + [c] + after) == Clean(before + after)
  {
    RemoveAppend(before + [c], after, IsSeparator);
    RemoveAppend(before, [c], IsSeparator);
    RemoveAppend(before, after, IsSeparator);
    assert RemoveWhere([c], IsSeparator) == [];
  }
}
