/** The password-strength rules applied at registration: four requirements that must all hold,
    and the Indonesian error message that lists the ones that do not. */
module Password {
  import opened Base
  import opened Strings

  datatype Requirements = Requirements(minLength: bool, hasUpperCase: bool, hasNumber: bool, hasSymbol: bool)

  datatype Strength = Strength(isValid: bool, requirements: Requirements, message: string)

  const MinLength := 8

  /** The class `[!@#$%^&*(),.?":{}|<>]`. */
  const Symbols := "!@#$%^&*(),.?\":{}|<>"

  predicate IsUpperCase(c: char)
  {
    'A' <= c <= 'Z'
  }

  predicate IsNumber(c: char)
  {
    '0' <= c <= '9'
  }

  predicate IsSymbol(c: char)
  {
    c in Symbols
  }

  /** `/[...]/.test(s)` for a character class given as a predicate. */
  function AnyChar(s: string, inClass: char -> bool): (found: bool)
    ensures found <==> exists k :: 0 <= k < |s| && inClass(s[k])
  {
    if s == [] then false
    else if inClass(s[0]) then true
    else
      assert forall k :: 1 <= k < |s| ==> s[k] == s[1..][k - 1];
      AnyChar(s[1..], inClass)
  }

  function AllMet(r: Requirements): bool
  {
    r.minLength && r.hasUpperCase && r.hasNumber && r.hasSymbol
  }

  const StrongMessage := "Password is strong"
  const WeakMessage := "Password does not meet security requirements"

  /** `validatePasswordStrength(password)` */
  function ValidatePasswordStrength(password: string): (st: Strength)
    ensures st.requirements.minLength <==> |password| >= MinLength
    ensures st.requirements.hasUpperCase <==> exists k :: 0 <= k < |password| && IsUpperCase(password[k])
    ensures st.requirements.hasNumber <==> exists k :: 0 <= k < |password| && IsNumber(password[k])
    ensures st.requirements.hasSymbol <==> exists k :: 0 <= k < |password| && IsSymbol(password[k])
    ensures st.isValid <==> (|password| >= MinLength
      && (exists k :: 0 <= k < |password| && IsUpperCase(password[k]))
      && (exists k :: 0 <= k < |password| && IsNumber(password[k]))
      && (exists k :: 0 <= k < |password| && IsSymbol(password[k])))
    ensures st.message == StrongMessage <==> st.isValid
    ensures !st.isValid ==> st.message == WeakMessage
  {
    var r := Requirements(
      |password| >= MinLength,
      AnyChar(password, IsUpperCase),
      AnyChar(password, IsNumber),
      AnyChar(password, IsSymbol));
    var ok := AllMet(r);
    Strength(ok, r, if ok then StrongMessage else WeakMessage)
  }

  // ---- `getPasswordErrorMessage(requirements)`

  const MessagePrefix := "Password harus mengandung: "
  const Separator := ", "

  /** The fragment naming each requirement, in the order the message lists them. */
  const Fragments := ["minimal 8 karakter", "huruf besar (A-Z)", "angka (0-9)", "simbol (!@#$%^&*)"]

  /** Requirement `i`, in the order of `Fragments`. */
  function Holds(r: Requirements, i: nat): bool
    requires i < 4
  {
    match i
    case 0 => r.minLength
    case 1 => r.hasUpperCase
    case 2 => r.hasNumber
    case 3 => r.hasSymbol
  }

  /** The fragments of the requirements from `i` on that do not hold, in order. */
  function MissingFrom(r: Requirements, i: nat): (m: seq<string>)
    requires i <= 4
    decreases 4 - i
    ensures |m| <= 4 - i
  {
    if i == 4 then []
    else (if Holds(r, i) then [] else [Fragments[i]]) + MissingFrom(r, i + 1)
  }

  /** The fragments of the requirements that do not hold, in the fixed order. */
  function Missing(r: Requirements): seq<string>
  {
    MissingFrom(r, 0)
  }

  /** The pushes onto `missing`, then the early `null` or the joined message. */
  method GetPasswordErrorMessage(requirements: Requirements) returns (message: Option<string>)
    ensures message.None? <==> AllMet(requirements)
    ensures message.Some? ==> message.value == MessagePrefix + Join(Missing(requirements), Separator)
  {
    var missing: seq<string> := [];
    if !requirements.minLength {
      missing := missing + [Fragments[0]];
    }
    if !requirements.hasUpperCase {
      missing := missing + [Fragments[1]];
    }
    if !requirements.hasNumber {
      missing := missing + [Fragments[2]];
    }
    if !requirements.hasSymbol {
      missing := missing + [Fragments[3]];
    }
    MissingOrder(requirements);
    assert missing == Missing(requirements);
    if |missing| == 0 {
      return None;
    }
    return Some(MessagePrefix + Join(missing, Separator));
  }

  /** `Missing` unrolled: the four requirements tested in turn. */
  lemma MissingOrder(r: Requirements)
    ensures Missing(r) ==
      (if r.minLength then [] else [Fragments[0]]) + (if r.hasUpperCase then [] else [Fragments[1]])
      + (if r.hasNumber then [] else [Fragments[2]]) + (if r.hasSymbol then [] else [Fragments[3]])
  {
    assert MissingFrom(r, 4) == [];
  }

  /** A fragment is listed exactly when its requirement does not hold. */
  lemma {:induction false} MissingMembers(r: Requirements, i: nat, j: nat)
    requires i <= j < 4
    ensures Fragments[j] in MissingFrom(r, i) <==> !Holds(r, j)
    decreases 4 - i
  {
    FragmentsDistinct();
    if i < j {
      MissingMembers(r, i + 1, j);
    } else {
      ListedFrom(r, i + 1, j);
    }
  }

  /** The fragments from `i` on never include an earlier one. */
  lemma {:induction false} ListedFrom(r: Requirements, i: nat, j: nat)
    requires j < i <= 4
    ensures Fragments[j] !in MissingFrom(r, i)
    decreases 4 - i
  {
    FragmentsDistinct();
    if i < 4 {
      ListedFrom(r, i + 1, j);
    }
  }

  lemma FragmentsDistinct()
    ensures forall a, b :: 0 <= a < b < 4 ==> Fragments[a] != Fragments[b]
  {
    assert Fragments[0][0] == 'm' && Fragments[1][0] == 'h' && Fragments[2][0] == 'a' && Fragments[3][0] == 's';
  }

  /** The position of a fragment in `Fragments`, and 4 for any other string. */
  function Rank(f: string): nat
  {
    if f == Fragments[0] then 0
    else if f == Fragments[1] then 1
    else if f == Fragments[2] then 2
    else if f == Fragments[3] then 3
    else 4
  }

  /** Every item of `m` is one of the fragments from `i` on, and the items appear in the order of
      `Fragments`. */
  predicate RankedFrom(m: seq<string>, i: nat)
  {
    (forall a :: 0 <= a < |m| ==> i <= Rank(m[a]) < 4 && m[a] == Fragments[Rank(m[a])])
    && (forall a, b :: 0 <= a < b < |m| ==> Rank(m[a]) < Rank(m[b]))
  }

  /** Every listed fragment is one of the four (from `i` on), and they appear in the fixed order. */
  lemma {:induction false} MissingSorted(r: Requirements, i: nat)
    requires i <= 4
    ensures RankedFrom(MissingFrom(r, i), i)
    decreases 4 - i
  {
    if i < 4 {
      MissingSorted(r, i + 1);
      var tail := MissingFrom(r, i + 1);
      if Holds(r, i) {
        assert MissingFrom(r, i) == tail;
        RankedWeaken(i, tail);
      } else {
        assert MissingFrom(r, i) == [Fragments[i]] + tail;
        RankedCons(i, tail);
      }
    }
  }

  lemma RankedWeaken(i: nat, m: seq<string>)
    requires RankedFrom(m, i + 1)
    ensures RankedFrom(m, i)
  {
  }

  /** Putting fragment `i` in front of fragments ranked above it keeps the order. */
  lemma RankedCons(i: nat, tail: seq<string>)
    requires i < 4 && RankedFrom(tail, i + 1)
    ensures RankedFrom([Fragments[i]] + tail, i)
  {
    FragmentsDistinct();
    assert Rank(Fragments[i]) == i;
    var m := [Fragments[i]] + tail;
    forall a | 1 <= a < |m| ensures m[a] == tail[a - 1] {
    }
  }

  /** No message at all exactly when the password is valid. */
  lemma NoMessageWhenValid(password: string)
    ensures Missing(ValidatePasswordStrength(password).requirements) == [] <==> ValidatePasswordStrength(password).isValid
  {
    MissingOrder(ValidatePasswordStrength(password).requirements);
  }

  /** The list can be read back out of the message: splitting what follows the prefix at `", "`
      gives the missing fragments, since no fragment holds a comma. */
  lemma MessageListsMissing(r: Requirements)
    requires !AllMet(r)
    ensures Split(Join(Missing(r), Separator), Separator) == Missing(r)
  {
    MissingOrder(r);
    MissingSorted(r, 0);
    var m := Missing(r);
    forall k, c | 0 <= k < |m| && 0 <= c < |m[k]| ensures m[k][c] != Separator[0] {
      NoComma(Rank(m[k]), c);
    }
    SplitJoin(m, Separator);
  }

  lemma NoComma(j: nat, c: nat)
    requires j < 4 && c < |Fragments[j]|
    ensures Fragments[j][c] != ','
  {
  }
}
