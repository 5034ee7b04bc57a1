/** Reading an Enzyme Commission number out of a ChEBI role name such as
    `EC 1.2.* inhibitor`: the first word after `EC `, with `*` wildcards
    written as `-`, trailing dots dropped, and `.-` appended until the
    number has its four levels (three dots), as in the NC-IUBMB numbering
    where `1.2.-.-` names every enzyme of sub-class 1.2. */
module EnzymeCodes {

  import opened Wrappers
  import opened Text

  /** The four role names whose EC numbers are written irregularly in ChEBI,
      with the numbers they stand for. */
  const SpecialNames: map<string, seq<string>> := map[
    "EC 1.22* (oxidoreductase acting on halogen in donors) inhibitor" := ["1.22.-.-"],
    "EC 1.1.1.34/EC 1.1.1.88 (hydroxymethylglutaryl-CoA reductase) inhibitor" := ["1.1.1.34", "1.1.1.88"],
    "EC 1.11.1.11 (L-ascorbate peroxidase) inhibitors" := ["1.11.1.11"],
    "EC 3.5.5.1 (nitrilase) inhhibitor" := ["3.5.5.1"]
  ]

  /** Every irregular name stands for at least one number. */
  lemma SpecialNamesNonEmpty()
    ensures forall name :: name in SpecialNames ==> SpecialNames[name] != []
  {
  }

  /** `name[len("EC "):].split()[0]`, which raises `IndexError` when nothing
      but whitespace follows the first three characters. */
  function EcToken(name: string): (r: Result<string>)
    ensures r.Success? <==> !AllSpace(From(name, 3))
    ensures r.Success? ==> r.value != [] && NoSpace(r.value)
    ensures r.Failure? ==> r.error.IndexError?
  {
    var words := SplitWhitespace(From(name, 3));
    if words == [] then Failure(IndexError("list index out of range")) else Success(words[0])
  }

  /** `.replace("*", "-").rstrip(".")`. */
  function Cleanup(token: string): (r: string)
    ensures '*' !in r
    ensures r == [] || r[|r| - 1] != '.'
  {
    RStripChar(ReplaceChar(token, '*', '-'), '.')
  }

  /** `n` copies of `.-`. */
  function Dashes(n: nat): string {
    if n == 0 then [] else Dashes(n - 1) + ".-"
  }

  /** The code after the padding loop `for _ in range(3 - code.count(".")):
      code += ".-"`, which runs no times once the code has three dots. */
  function Padded(code: string): string {
    var dots := Count(code, '.');
    code + Dashes(if dots < 3 then 3 - dots else 0)
  }

  lemma {:induction false} DashesShape(n: nat)
    ensures Count(Dashes(n), '.') == n
    ensures '*' !in Dashes(n)
  {
    if n > 0 {
      DashesShape(n - 1);
      CountAppend(Dashes(n - 1), ".-", '.');
    }
  }

  /** Padding keeps the code as a prefix, adds nothing but `.-` pairs, and
      leaves exactly three dots unless the code already had more. */
  lemma PaddedShape(code: string)
    ensures StartsWith(Padded(code), code)
    ensures Count(code, '.') <= 3 ==> Count(Padded(code), '.') == 3
    ensures Count(code, '.') >= 3 ==> Padded(code) == code
    ensures '*' !in code ==> '*' !in Padded(code)
  {
    var dots := Count(code, '.');
    var n := if dots < 3 then 3 - dots else 0;
    DashesShape(n);
    CountAppend(code, Dashes(n), '.');
    assert Padded(code)[..|code|] == code;
  }

  /** The padding loop itself. */
  method PadEcCode(code: string) returns (r: string)
    ensures r == Padded(code)
  {
    r := code;
    var n := 3 - Count(code, '.');
    var i := 0;
    while i < n
      invariant 0 <= i && (n >= 0 ==> i <= n) && (n < 0 ==> i == 0)
      invariant r == code + Dashes(i)
    {
      r := r + ".-";
      i := i + 1;
    }
  }

  /** The EC number a regular `EC ...` role name designates. */
  function EcCodeOf(name: string): (r: Result<string>)
    ensures r.Success? <==> EcToken(name).Success?
    ensures r.Failure? ==> r == Failure(EcToken(name).error)
    ensures r.Success? ==> '*' !in r.value && Count(r.value, '.') >= 3
    ensures r.Success? ==> StartsWith(r.value, Cleanup(EcToken(name).value))
  {
    match EcToken(name)
    case Failure(e) => Failure(e)
    case Success(token) =>
      PaddedShape(Cleanup(token));
      Success(Padded(Cleanup(token)))
  }

  /** A name that starts `EC ` and ends `inhibitor` or `activator` always has
      a word after `EC `, so reading its code never raises. */
  lemma EcNamesParse(name: string)
    requires StartsWith(name, "EC ")
    requires EndsWith(name, "inhibitor") || EndsWith(name, "activator")
    ensures EcCodeOf(name).Success?
  {
    var last := |name| - 1;
    assert name[last] == 'r';
    assert From(name, 3)[last - 3] == name[last];
  }

  /** The code a name `EC <word><rest>` designates, when `rest` is empty or
      starts with whitespace. */
  lemma RegularName(name: string, word: string, rest: string)
    requires name == "EC " + word + rest
    requires word != [] && NoSpace(word)
    requires rest == [] || IsSpace(rest[0])
    ensures EcCodeOf(name) == Success(Padded(Cleanup(word)))
  {
    assert From(name, 3) == word + rest;
    FirstWord(word, rest);
  }

  /** `EC 1.2.* inhibitor` designates sub-class `1.2.-.-`. */
  lemma WildcardExample()
    ensures EcCodeOf("EC 1.2.* inhibitor") == Success("1.2.-.-")
  {
    RegularName("EC 1.2.* inhibitor", "1.2.*", " inhibitor");
    CleanWildcard();
  }

  lemma CleanWildcard()
    ensures Padded(Cleanup("1.2.*")) == "1.2.-.-"
  {
    assert ReplaceChar("1.2.*", '*', '-') == "1.2.-";
    assert RStripChar("1.2.-", '.') == "1.2.-";
    assert Count("1.2.-", '.') == 2;
    assert Dashes(1) == ".-";
  }

  /** A trailing dot is dropped before padding: `EC 3.4. inhibitor` names
      `3.4.-.-`, not `3.4..-`. */
  lemma TrailingDotExample()
    ensures EcCodeOf("EC 3.4. inhibitor") == Success("3.4.-.-")
  {
    RegularName("EC 3.4. inhibitor", "3.4.", " inhibitor");
    CleanTrailingDot();
  }

  lemma CleanTrailingDot()
    ensures Padded(Cleanup("3.4.")) == "3.4.-.-"
  {
    assert ReplaceChar("3.4.", '*', '-') == "3.4.";
    assert RStripChar("3.4.", '.') == "3.4";
    assert Count("3.4", '.') == 1;
    assert Dashes(2) == ".-.-";
  }
}
