/**
 * `generate_password`: validate the length and the complexity name, draw
 * one lowercase letter, one uppercase letter and one digit, fill the rest
 * either by sampling distinct characters or by drawing with repetition,
 * append the three required characters and shuffle.
 *
 * The random source is a parameter: a `Draws` value holds every index the
 * random module would return, and `Admissible` states what the random
 * module guarantees about them.
 */
module Generator {
  import opened Wrappers
  import opened Sequences
  import opened Charsets
  import opened Shuffling

  const MinLength: int := 1
  const MaxLength: int := 1024

  /** Number of required characters: `len(required)`. */
  const RequiredCount: int := 3

  const LengthError: string := "Password length must be between 1 and 1024."

  /** `sep.join(parts)` */
  function Join(parts: seq<string>, sep: string): string {
    if |parts| == 0 then ""
    else if |parts| == 1 then parts[0]
    else parts[0] + sep + Join(parts[1..], sep)
  }

  const TierError: string := "Invalid complexity mode. Choose from: " + Join(TierNames, ", ")

  /** The tier error names the tiers in registry order. */
  lemma TierErrorText()
    ensures TierError == "Invalid complexity mode. Choose from: simple, strong, maximum"
  {
    assert TierNames[1..] == ["strong", "maximum"];
    assert TierNames[1..][1..] == ["maximum"];
    assert Join(TierNames, ", ") == "simple, strong, maximum";
  }

  /** The JSON payload: `{"password": ...}`, `{"error": ...}`, or an exception escaping the tool. */
  datatype Outcome = Password(s: string) | Error(msg: string) | Crash

  /** The two checks, in the source's order: the length range first, then the tier name. */
  function Validate(length: int, complexity: string): (r: Result<Tier, string>)
    ensures !(MinLength <= length <= MaxLength) ==> r == Failure(LengthError)
    ensures MinLength <= length <= MaxLength && complexity !in TierNames ==> r == Failure(TierError)
    ensures MinLength <= length <= MaxLength && complexity in TierNames ==>
      r.Success? && Name(r.value) == complexity
    ensures r.Success? ==> ParseTier(complexity) == Some(r.value)
  {
    if !(MinLength <= length <= MaxLength) then Failure(LengthError)
    else
      match ParseTier(complexity)
      case None => Failure(TierError)
      case Some(t) => Success(t)
  }

  /** Every index the random module returns during one call. */
  datatype Draws = Draws(
    lower: nat,         // random.choice(ascii_lowercase)
    upper: nat,         // random.choice(ascii_uppercase)
    digit: nat,         // random.choice(digits)
    sample: seq<nat>,   // positions chosen by random.sample
    fill: seq<nat>,     // positions chosen by random.choices
    swaps: seq<nat>)    // positions drawn by random.shuffle

  /** The three `random.choice` draws are positions in their alphabets. */
  predicate ChoicesInRange(d: Draws) {
    d.lower < |AsciiLowercase| && d.upper < |AsciiUppercase| && d.digit < |Digits|
  }

  /** The `required` list: one lowercase letter, one uppercase letter, one digit. */
  function Required(d: Draws): (r: string)
    requires ChoicesInRange(d)
    ensures |r| == RequiredCount
    ensures IsLower(r[0]) && IsUpper(r[1]) && IsDigit(r[2])
    ensures Distinct(r)
  {
    ClassRanges();
    [AsciiLowercase[d.lower], AsciiUppercase[d.upper], Digits[d.digit]]
  }

  /** What `random.sample` guarantees when it returns: k distinct positions. */
  predicate SampleFits(positions: seq<nat>, n: nat, k: int) {
    0 <= k <= n ==>
      |positions| == k && Distinct(positions) && forall i :: 0 <= i < k ==> positions[i] < n
  }

  /**
   * `random.sample(population, k)`: k elements at distinct positions, or
   * None where Python raises ValueError (k negative or larger than the
   * population).
   */
  function Sample(population: string, k: int, positions: seq<nat>): (r: Option<string>)
    requires SampleFits(positions, |population|, k)
    ensures r.None? <==> k < 0 || k > |population|
    ensures r.Some? ==> |r.value| == k && forall c :: c in r.value ==> c in population
    ensures r.Some? && Distinct(population) ==> Distinct(r.value)
  {
    if k < 0 || k > |population| then None
    else
      var picked := seq(k, i requires 0 <= i < k => population[positions[i]]);
      assert forall i :: 0 <= i < k ==> picked[i] in population;
      Some(picked)
  }

  /** What `random.choices` guarantees: max(k, 0) positions, repetition allowed. */
  predicate ChoicesFit(positions: seq<nat>, n: nat, k: int) {
    && |positions| == (if k < 0 then 0 else k)
    && forall i :: 0 <= i < |positions| ==> positions[i] < n
  }

  /** `random.choices(population, k=k)`: k elements drawn with repetition. */
  function Choices(population: string, k: int, positions: seq<nat>): (r: string)
    requires ChoicesFit(positions, |population|, k)
    ensures |r| == (if k < 0 then 0 else k)
    ensures forall c :: c in r ==> c in population
  {
    var picked := seq(|positions|, i requires 0 <= i < |positions| => population[positions[i]]);
    assert forall i :: 0 <= i < |positions| ==> picked[i] in population;
    picked
  }

  /** `available`: the tier's characters other than the required ones. */
  function Available(t: Tier, d: Draws): string
    requires ChoicesInRange(d)
  {
    Without(Dedup(Charset(t)), Required(d))
  }

  /** The branch test of the source: `remaining_length <= len(set(charset)) - len(required)`. */
  predicate SampleBranch(length: int, t: Tier) {
    length - RequiredCount <= |Dedup(Charset(t))| - RequiredCount
  }

  /** What the random module guarantees about the draws of a call on a valid tier. */
  predicate DrawsFit(length: int, t: Tier, d: Draws) {
    && ChoicesInRange(d)
    && (if SampleBranch(length, t)
        then SampleFits(d.sample, |Available(t, d)|, length - RequiredCount)
        else ChoicesFit(d.fill, |Charset(t)|, length - RequiredCount))
    && (length >= RequiredCount ==> ValidSwaps(d.swaps, length))
  }

  /** Draws are constrained only for calls that pass validation. */
  predicate Admissible(length: int, complexity: string, d: Draws) {
    match Validate(length, complexity)
    case Failure(_) => true
    case Success(t) => DrawsFit(length, t, d)
  }

  /**
   * `set(charset)` is the charset itself, all three required characters
   * belong to it, and `available` has exactly `len(charset) - 3` elements.
   */
  lemma AvailableSize(t: Tier, d: Draws)
    requires ChoicesInRange(d)
    ensures Dedup(Charset(t)) == Charset(t)
    ensures forall c :: c in Required(d) ==> c in Charset(t)
    ensures |Available(t, d)| == CharsetSize(t) - RequiredCount
  {
    CharsetDistinct(t);
    CharsetLength(t);
    CharsetCoversClasses(t);
    WithoutSize(Charset(t), Required(d));
  }

  /** The sample branch is taken exactly when the length is at most the tier size (62, 76, 94). */
  lemma SampleBranchThreshold(length: int, t: Tier)
    ensures SampleBranch(length, t) <==> length <= CharsetSize(t)
  {
    CharsetDistinct(t);
    CharsetLength(t);
  }

  /**
   * `password_chars` before `+= required`: the sampled or drawn characters,
   * or None where `random.sample` raises.
   */
  function Fill(length: int, t: Tier, d: Draws): (r: Option<string>)
    requires DrawsFit(length, t, d)
    ensures r.None? <==> length < RequiredCount
    ensures r.Some? ==> |r.value| == length - RequiredCount
    ensures r.Some? ==> forall c :: c in r.value ==> c in Charset(t)
    ensures r.Some? && length <= CharsetSize(t) ==>
      Distinct(r.value) && forall c :: c in r.value ==> c !in Required(d)
  {
    AvailableSize(t, d);
    SampleBranchThreshold(length, t);
    CharsetDistinct(t);
    var remaining := length - RequiredCount;
    if SampleBranch(length, t) then
      Sample(Available(t, d), remaining, d.sample)
    else
      Some(Choices(Charset(t), remaining, d.fill))
  }

  /** The whole call as a function of its arguments and the draws. */
  function Generate(length: int, complexity: string, d: Draws): (r: Outcome)
    requires Admissible(length, complexity, d)
    ensures !(MinLength <= length <= MaxLength) ==> r == Error(LengthError)
    ensures MinLength <= length <= MaxLength && complexity !in TierNames ==> r == Error(TierError)
  {
    match Validate(length, complexity)
    case Failure(msg) => Error(msg)
    case Success(t) =>
      match Fill(length, t, d)
      case None => Crash
      case Some(chars) =>
        AssemblyFits(length, t, d);
        Password(FisherYates(chars + Required(d), d.swaps))
  }

  /** The assembled list has the requested length, so the shuffle draws fit it. */
  lemma AssemblyFits(length: int, t: Tier, d: Draws)
    requires DrawsFit(length, t, d) && Fill(length, t, d).Some?
    ensures |Fill(length, t, d).value + Required(d)| == length
    ensures ValidSwaps(d.swaps, |Fill(length, t, d).value + Required(d)|)
  {
  }

  /**
   * For a valid tier and a length of at least 3, the call yields the
   * shuffle of the filled characters followed by the required ones.
   */
  lemma GenerateUnfold(length: int, t: Tier, d: Draws)
    requires RequiredCount <= length <= MaxLength && Admissible(length, Name(t), d)
    ensures DrawsFit(length, t, d) && Fill(length, t, d).Some?
    ensures var chars := Fill(length, t, d).value + Required(d);
      |chars| == length &&
      Generate(length, Name(t), d) == Password(FisherYates(chars, d.swaps))
  {
    NameRoundTrip(t);
  }

  /** Lengths 1 and 2 pass validation but `random.sample` raises on a negative count. */
  lemma ShortLengthCrashes(length: int, t: Tier, d: Draws)
    requires MinLength <= length < RequiredCount && Admissible(length, Name(t), d)
    ensures Generate(length, Name(t), d) == Crash
  {
    NameRoundTrip(t);
  }

  /** A generated password has exactly the requested length. */
  lemma PasswordLength(length: int, t: Tier, d: Draws)
    requires RequiredCount <= length <= MaxLength && Admissible(length, Name(t), d)
    ensures Generate(length, Name(t), d).Password?
    ensures |Generate(length, Name(t), d).s| == length
  {
    GenerateUnfold(length, t, d);
  }

  /** The shuffle only reorders: the password holds the filled and the required characters. */
  lemma PasswordIsShuffledAssembly(length: int, t: Tier, d: Draws)
    requires RequiredCount <= length <= MaxLength && Admissible(length, Name(t), d)
    ensures DrawsFit(length, t, d) && Fill(length, t, d).Some?
    ensures multiset(Generate(length, Name(t), d).s) ==
      multiset(Fill(length, t, d).value) + multiset(Required(d))
  {
    GenerateUnfold(length, t, d);
    var chars := Fill(length, t, d).value + Required(d);
    FisherYatesPermutes(chars, d.swaps);
  }

  /** The password contains a lowercase letter, an uppercase letter and a digit. */
  lemma PasswordCoversClasses(length: int, t: Tier, d: Draws)
    requires RequiredCount <= length <= MaxLength && Admissible(length, Name(t), d)
    ensures var s := Generate(length, Name(t), d).s;
      (exists c :: c in s && IsLower(c)) &&
      (exists c :: c in s && IsUpper(c)) &&
      (exists c :: c in s && IsDigit(c))
  {
    PasswordIsShuffledAssembly(length, t, d);
    var s := Generate(length, Name(t), d).s;
    var required := Required(d);
    KeepsAll(s, Fill(length, t, d).value, required);
    assert required[0] in required && required[1] in required && required[2] in required;
  }

  lemma KeepsAll(s: string, fill: string, required: string)
    requires multiset(s) == multiset(fill) + multiset(required)
    ensures forall c :: c in required ==> c in s
  {
    forall c | c in required ensures c in s {
      assert c in multiset(required);
      assert c in multiset(s);
    }
  }

  /** Every character of the password belongs to the requested tier. */
  lemma PasswordWithinCharset(length: int, t: Tier, d: Draws)
    requires RequiredCount <= length <= MaxLength && Admissible(length, Name(t), d)
    ensures forall c :: c in Generate(length, Name(t), d).s ==> c in Charset(t)
  {
    PasswordIsShuffledAssembly(length, t, d);
    AvailableSize(t, d);
    var s := Generate(length, Name(t), d).s;
    var chars := Fill(length, t, d).value + Required(d);
    assert multiset(s) == multiset(chars);
    forall c | c in s ensures c in Charset(t) {
      assert c in multiset(chars);
    }
  }

  /**
   * The characters are pairwise distinct exactly when the length is at most
   * the tier size: up to it the fill is a sample of characters other than
   * the required ones, beyond it some character must repeat.
   */
  lemma PasswordDistinctIff(length: int, t: Tier, d: Draws)
    requires RequiredCount <= length <= MaxLength && Admissible(length, Name(t), d)
    ensures Distinct(Generate(length, Name(t), d).s) <==> length <= CharsetSize(t)
  {
    PasswordIsShuffledAssembly(length, t, d);
    PasswordWithinCharset(length, t, d);
    PasswordLength(length, t, d);
    CharsetLength(t);
    var s := Generate(length, Name(t), d).s;
    var fill, required := Fill(length, t, d).value, Required(d);
    if length <= CharsetSize(t) {
      DistinctConcat(fill, required);
      assert multiset(s) == multiset(fill + required);
      PermutationKeepsDistinct(fill + required, s);
    } else if Distinct(s) {
      DistinctWithin(s, Charset(t));
      assert false;
    }
  }

  /** The default arguments: `length = 12`, `complexity = "strong"`. */
  const DefaultLength: int := 12
  const DefaultComplexity: string := "strong"

  /** A call with the default arguments yields 12 distinct characters of the strong tier. */
  lemma DefaultPassword(d: Draws)
    requires Admissible(DefaultLength, DefaultComplexity, d)
    ensures var r := Generate(DefaultLength, DefaultComplexity, d);
      r.Password? && |r.s| == DefaultLength && Distinct(r.s) &&
      forall c :: c in r.s ==> c in Charset(Strong)
  {
    assert DefaultComplexity == Name(Strong);
    PasswordLength(DefaultLength, Strong, d);
    PasswordDistinctIff(DefaultLength, Strong, d);
    PasswordWithinCharset(DefaultLength, Strong, d);
  }

  /**
   * `generate_password`: the checks, the required characters, the fill,
   * `password_chars += required` and `random.shuffle(password_chars)` on an
   * array.
   */
  method GeneratePassword(length: int, complexity: string, d: Draws) returns (r: Outcome)
    requires Admissible(length, complexity, d)
    ensures r == Generate(length, complexity, d)
    ensures r.Password? ==> |r.s| == length
  {
    if !(MinLength <= length <= MaxLength) {
      return Error(LengthError);
    }
    var tier := ParseTier(complexity);
    if tier.None? {
      return Error(TierError);
    }
    var t := tier.value;
    assert Validate(length, complexity) == Success(t);
    assert DrawsFit(length, t, d);
    var charset := Charset(t);
    var required := Required(d);
    var remainingLength := length - |required|;
    var passwordChars: string;
    if remainingLength <= |Dedup(charset)| - |required| {
      var available := Without(Dedup(charset), required);
      var sampled := Sample(available, remainingLength, d.sample);
      if sampled.None? {
        return Crash;
      }
      passwordChars := sampled.value;
    } else {
      passwordChars := Choices(charset, remainingLength, d.fill);
    }
    assert Fill(length, t, d) == Some(passwordChars);
    passwordChars := passwordChars + required;
    assert |passwordChars| == length && ValidSwaps(d.swaps, |passwordChars|);
    var a := new char[|passwordChars|](i requires 0 <= i < |passwordChars| => passwordChars[i]);
    assert a[..] == passwordChars;
    Shuffle(a, d.swaps);
    r := Password(a[..]);
  }
}
