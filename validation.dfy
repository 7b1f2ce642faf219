/** The form validators of the service and category screens: the error
    map of the service form, built field by field, and the validation of a
    new category name against the existing ones. */
module Validation {
  import opened Text
  import opened Results

  // ----- validateServiceForm -----

  /** The fields of the service form. The duration is a JavaScript number,
      taken here as a real; the price is the text as typed. */
  datatype ServiceFormData = ServiceFormData(
    nome: string,
    categoria: string,
    duracaoPadrao: real,
    preco: string,
    description: string)

  /** The keys of the error map. The duration error is stored under
      `duracao`, not under the field's own name `duracao_padrao`. */
  const NameKey := "nome"
  const PriceKey := "preco"
  const DurationKey := "duracao"
  const ImageKey := "imagem"
  const FormKeys: set<string> := {NameKey, PriceKey, DurationKey, ImageKey}

  const NameTooShort := "O nome deve ter pelo menos 3 caracteres."
  const PriceHasComma := "Utilize pontos (.) em vez de vírgulas (,) para decimais."
  const PriceNegative := "O preço não pode ser negativo."
  const DurationNegative := "A duração não pode ser negativa."
  const ImageMissing := "Selecione uma imagem para o serviço."

  const MinNameLength := 3

  /** The longest prefix of `s` made of decimal digits with at most one
      dot among them: the part of a decimal literal that `parseFloat`
      reads for its value (`seenDot` says a dot was read already). */
  function Mantissa(s: string, seenDot: bool): (m: string)
    ensures |m| <= |s| && m == s[..|m|]
    ensures forall i :: 0 <= i < |m| ==> '0' <= m[i] <= '9' || m[i] == '.'
    ensures |m| < |s| ==> !('0' <= s[|m|] <= '9') && (s[|m|] != '.' || seenDot || '.' in m)
    ensures seenDot ==> '.' !in m
    ensures forall i, j :: 0 <= i < j < |m| && m[i] == '.' ==> m[j] != '.'
    decreases |s|
  {
    if s == "" then ""
    else if '0' <= s[0] <= '9' || (s[0] == '.' && !seenDot) then
      var rest := Mantissa(s[1..], seenDot || s[0] == '.');
      var m := [s[0]] + rest;
      assert m[1..] == rest && m[0] == s[0];
      assert |m| < |s| ==> s[|m|] == s[1..][|rest|];
      m
    else ""
  }

  /** Some digit of `m` is not zero. */
  predicate HasNonzeroDigit(m: string) {
    exists i :: 0 <= i < |m| && '1' <= m[i] <= '9'
  }

  /** `(parseFloat(s) || 0) < 0`. `parseFloat` skips leading white space
      and reads the longest decimal literal there; its value is negative
      when a minus sign comes first and either `Infinity` or a mantissa
      with a digit other than zero follows. Text it cannot read gives NaN,
      and a mantissa of zeros gives -0: both are falsy, so `|| 0` makes
      them 0, which is not negative. */
  predicate PriceIsNegative(s: string): (negative: bool)
    ensures negative ==> '-' in s
  {
    var t := TrimStart(s);
    assert t != "" ==> t[0] == s[|s| - |t|];
    |t| > 0 && t[0] == '-'
    && (StartsWith(t[1..], "Infinity") || HasNonzeroDigit(Mantissa(t[1..], false)))
  }

  /** `validateServiceForm`: each check sets its own entry of the error
      map, independently of the others; the negative-price check runs
      after the comma check and overwrites its message. The map is empty
      exactly when every check passes. */
  method ValidateServiceForm(data: ServiceFormData, hasImage: bool) returns (errors: map<string, string>)
    ensures errors.Keys <= FormKeys
    ensures NameKey in errors <==> Utf16Length(data.nome) < MinNameLength
    ensures PriceKey in errors <==> ',' in data.preco || PriceIsNegative(data.preco)
    ensures DurationKey in errors <==> data.duracaoPadrao < 0.0
    ensures ImageKey in errors <==> !hasImage
    ensures NameKey in errors ==> errors[NameKey] == NameTooShort
    ensures PriceKey in errors ==>
      errors[PriceKey] == if PriceIsNegative(data.preco) then PriceNegative else PriceHasComma
    ensures DurationKey in errors ==> errors[DurationKey] == DurationNegative
    ensures ImageKey in errors ==> errors[ImageKey] == ImageMissing
    ensures errors == map[] <==>
      && Utf16Length(data.nome) >= MinNameLength
      && ',' !in data.preco
      && !PriceIsNegative(data.preco)
      && data.duracaoPadrao >= 0.0
      && hasImage
  {
    assert NameKey != PriceKey && NameKey != DurationKey && NameKey != ImageKey;
    assert PriceKey != DurationKey && PriceKey != ImageKey && DurationKey != ImageKey;
    ContainsSingle(data.preco, ',');
    var nameTooShort := Utf16Length(data.nome) < MinNameLength;
    var priceHasComma := Contains(data.preco, ",");
    var priceNegative := PriceIsNegative(data.preco);
    errors := map[];
    if nameTooShort {
      errors := errors[NameKey := NameTooShort];
    }
    if priceHasComma {
      errors := errors[PriceKey := PriceHasComma];
    }
    if priceNegative {
      errors := errors[PriceKey := PriceNegative];
    }
    if data.duracaoPadrao < 0.0 {
      errors := errors[DurationKey := DurationNegative];
    }
    if !hasImage {
      errors := errors[ImageKey := ImageMissing];
    }
  }

  /** A price is read past any white space before it. */
  lemma PricePaddingIgnored(before: string, s: string)
    requires forall k :: 0 <= k < |before| ==> IsJsWhitespace(before[k])
    ensures PriceIsNegative(before + s) == PriceIsNegative(s)
  {
    TrimStartPadded(before, s);
  }

  /** Only a price whose literal starts with a minus sign is negative. */
  lemma NegativePriceHasMinus(s: string)
    requires PriceIsNegative(s)
    ensures exists k :: 0 <= k < |s| && s[k] == '-' && forall j :: 0 <= j < k ==> IsJsWhitespace(s[j])
  {
    var t := TrimStart(s);
    var k := |s| - |t|;
    assert s[k] == t[0];
  }

  /** Minus followed by a mantissa with a digit other than zero: a
      negative price, whatever follows the mantissa (`-1,5` reads as -1). */
  lemma MinusNonzeroIsNegative(m: string, rest: string)
    requires forall i :: 0 <= i < |m| ==> '0' <= m[i] <= '9'
    requires exists i :: 0 <= i < |m| && '1' <= m[i] <= '9'
    ensures PriceIsNegative("-" + m + rest)
  {
    var u := m + rest;
    assert "-" + m + rest == "-" + u;
    MinusThen(u);
    MantissaOfDigits(m, rest);
    var mantissa := Mantissa(u, false);
    var i :| 0 <= i < |m| && '1' <= m[i] <= '9';
    assert mantissa[i] == mantissa[..|m|][i] == m[i];
  }

  /** Digits at the start of a text are all read into the mantissa. */
  lemma {:induction false} MantissaOfDigits(m: string, rest: string)
    requires forall i :: 0 <= i < |m| ==> '0' <= m[i] <= '9'
    ensures StartsWith(Mantissa(m + rest, false), m)
    decreases |m|
  {
    if m != "" {
      assert (m + rest)[1..] == m[1..] + rest;
      MantissaOfDigits(m[1..], rest);
    }
  }

  /** `-1,5` holds a comma and is negative, so its error is the
      negative-price message, which overwrites the comma message. */
  lemma NegativePriceWithComma()
    ensures ',' in "-1,5" && PriceIsNegative("-1,5")
  {
    assert "-1,5" == "-" + "1" + ",5";
    assert "-1,5"[2] == ',';
    assert "1"[0] == '1';
    MinusNonzeroIsNegative("1", ",5");
  }

  /** A mantissa read from zeros and dots has no digit other than zero. */
  lemma MantissaOfZeros(z: string, seenDot: bool)
    requires forall i :: 0 <= i < |z| ==> z[i] == '0' || z[i] == '.'
    ensures !HasNonzeroDigit(Mantissa(z, seenDot))
  {
    var m := Mantissa(z, seenDot);
    assert forall i :: 0 <= i < |m| ==> m[i] == z[i];
  }

  /** Minus followed only by zeros and dots: -0 or NaN, neither of which
      is negative once `|| 0` replaces it. */
  lemma MinusZeroNotNegative(s: string)
    requires |s| >= 1 && s[0] == '-'
    requires forall i :: 1 <= i < |s| ==> s[i] == '0' || s[i] == '.'
    ensures !PriceIsNegative(s)
  {
    var z := s[1..];
    assert forall i :: 0 <= i < |z| ==> z[i] == '0' || z[i] == '.' by {
      assert forall i :: 0 <= i < |z| ==> z[i] == s[i + 1];
    }
    MantissaOfZeros(z, false);
    assert !StartsWith(z, "Infinity") by {
      assert |z| >= 8 ==> z[0] != 'I';
    }
    assert s == "-" + z;
    MinusThen(z);
  }

  /** After a leading minus sign the price is negative exactly when it
      reads `Infinity` or a mantissa with a digit other than zero. */
  lemma MinusThen(u: string)
    ensures PriceIsNegative("-" + u) <==> StartsWith(u, "Infinity") || HasNonzeroDigit(Mantissa(u, false))
  {
    var s := "-" + u;
    assert s[0] == '-';
    TrimStartAt(s, 0);
    assert s[1..] == u;
  }

  // ----- validateCategoryName -----

  const CategoryRequired := "O nome da categoria é obrigatório."
  const CategoryExists := "Esta categoria já existe."

  /** `validateCategoryName`: a name that is all white space is refused as
      missing, before the list is looked at (even when the list holds the
      empty name); otherwise the trimmed name is refused when it is, as
      written, an element of the existing list, whose own entries are not
      trimmed; anything else is valid. */
  function ValidateCategoryName(name: string, existing: seq<string>): (r: ValidationResult)
    ensures r == Invalid(CategoryRequired) <==> forall k :: 0 <= k < |name| ==> IsJsWhitespace(name[k])
    ensures r == Invalid(CategoryExists) <==> Trim(name) != "" && Trim(name) in existing
    ensures r.IsValid() <==> Trim(name) != "" && Trim(name) !in existing
    ensures r.Invalid? ==> r.error in {CategoryRequired, CategoryExists}
  {
    TrimEmptyIffBlank(name);
    var trimmed := Trim(name);
    if trimmed == "" then
      Invalid(CategoryRequired)
    else if trimmed in existing then
      assert CategoryExists != CategoryRequired by { assert CategoryExists[0] != CategoryRequired[0]; }
      Invalid(CategoryExists)
    else
      Valid
  }

  /** White space around the name changes nothing. */
  lemma CategoryPaddingIgnored(before: string, name: string, after: string, existing: seq<string>)
    requires forall k :: 0 <= k < |before| ==> IsJsWhitespace(before[k])
    requires forall k :: 0 <= k < |after| ==> IsJsWhitespace(after[k])
    ensures ValidateCategoryName(before + name + after, existing) == ValidateCategoryName(name, existing)
  {
    TrimPadded(before, name, after);
  }

  /** Once an accepted name is added to the list in its trimmed form, the
      same name is refused as a duplicate. */
  lemma AcceptedThenDuplicate(name: string, existing: seq<string>)
    requires ValidateCategoryName(name, existing).IsValid()
    ensures ValidateCategoryName(name, existing + [Trim(name)]) == Invalid(CategoryExists)
  {
    assert Trim(name) in existing + [Trim(name)];
  }

  /** Adding names to the list never turns a refusal into an acceptance. */
  lemma MoreCategoriesRefuseMore(name: string, existing: seq<string>, added: seq<string>)
    requires !ValidateCategoryName(name, existing).IsValid()
    ensures !ValidateCategoryName(name, existing + added).IsValid()
  {
    if Trim(name) in existing {
      var i :| 0 <= i < |existing| && existing[i] == Trim(name);
      assert (existing + added)[i] == Trim(name);
    }
  }
}
