/** The menu item form: `validateForm`, the submit guard and the field change handler. */
module MenuItemForm {
  import opened Common
  import opened Text

  /** The form's record; the price is in integer cents. */
  datatype FormData = FormData(name: string, description: string, price: int, category: string, image: string)

  datatype Field = Name | Description | Price | Category | Image

  type Errors = map<Field, string>

  const NameRequired := "Nome é obrigatório"
  const DescriptionRequired := "Descrição é obrigatória"
  const PriceMustBePositive := "Preço deve ser maior que zero"
  const CategoryRequired := "Categoria é obrigatória"

  /** The fields a form was opened with. */
  const EmptyForm := FormData("", "", 0, "", "")

  /** `validateForm`'s error record. */
  function Validate(f: FormData): (errors: Errors)
    ensures Name in errors <==> IsBlank(f.name)
    ensures Description in errors <==> IsBlank(f.description)
    ensures Price in errors <==> f.price <= 0
    ensures Category in errors <==> f.category == ""
    ensures Image !in errors
    ensures Name in errors ==> errors[Name] == NameRequired
    ensures Description in errors ==> errors[Description] == DescriptionRequired
    ensures Price in errors ==> errors[Price] == PriceMustBePositive
    ensures Category in errors ==> errors[Category] == CategoryRequired
  {
    TrimEmptyIffBlank(f.name);
    TrimEmptyIffBlank(f.description);
    var e0: Errors := map[];
    var e1 := if Trim(f.name) == "" then e0[Name := NameRequired] else e0;
    var e2 := if Trim(f.description) == "" then e1[Description := DescriptionRequired] else e1;
    var e3 := if f.price == 0 || f.price <= 0 then e2[Price := PriceMustBePositive] else e2;
    if f.category == "" then e3[Category := CategoryRequired] else e3
  }

  /** `Object.keys(newErrors).length === 0` */
  predicate IsValid(f: FormData) {
    |Validate(f).Keys| == 0
  }

  /** `handleSubmit`: `onSubmit` receives the form data only when it validates. */
  function HandleSubmit(f: FormData): (submitted: Option<FormData>)
    ensures submitted.Some? <==>
      !IsBlank(f.name) && !IsBlank(f.description) && f.price > 0 && f.category != ""
    ensures submitted.Some? ==> submitted.value == f
  {
    var errors := Validate(f);
    if |errors.Keys| == 0 then Some(f)
    else
      assert exists field :: field in errors.Keys by {
        var field :| field in errors.Keys;
      }
      None
  }

  /** `handleChange`: the named field takes the input's value; for the price it is the parsed
      number, or 0 when the text does not parse (`parseFloat(value) || 0`). */
  function HandleChange(f: FormData, field: Field, value: string, parseCents: string -> Option<int>): (r: FormData)
    ensures field == Price ==> r.price == parseCents(value).GetOr(0)
    ensures field != Price ==> TextField(r, field) == value
    ensures OnlyChanged(f, r, field)
  {
    match field
    case Name => f.(name := value)
    case Description => f.(description := value)
    case Price => f.(price := parseCents(value).GetOr(0))
    case Category => f.(category := value)
    case Image => f.(image := value)
  }

  function TextField(f: FormData, field: Field): string
    requires field != Price
  {
    match field
    case Name => f.name
    case Description => f.description
    case Category => f.category
    case Image => f.image
  }

  /** Every field other than `field` is the same in `f` and `g`. */
  predicate OnlyChanged(f: FormData, g: FormData, field: Field) {
    && (field != Name ==> g.name == f.name)
    && (field != Description ==> g.description == f.description)
    && (field != Price ==> g.price == f.price)
    && (field != Category ==> g.category == f.category)
    && (field != Image ==> g.image == f.image)
  }

  // ---------------------------------------------------------------------------------------

  /** The form is valid iff no error was recorded, for each of the four checked fields. */
  lemma ValidIffNoError(f: FormData)
    ensures IsValid(f) <==> Name !in Validate(f) && Description !in Validate(f) && Price !in Validate(f) && Category !in Validate(f)
  {
    var e := Validate(f);
    if !IsValid(f) {
      var field :| field in e.Keys;
    }
  }

  /** The image field never affects validation or submission. */
  lemma ImageNeverValidated(f: FormData, image: string)
    ensures Validate(f.(image := image)) == Validate(f)
    ensures HandleSubmit(f.(image := image)).Some? <==> HandleSubmit(f).Some?
  {
  }

  /** A blank form, as opened, has an error on each of the four checked fields. */
  lemma EmptyFormHasFourErrors()
    ensures Validate(EmptyForm).Keys == {Name, Description, Price, Category}
    ensures HandleSubmit(EmptyForm) == None
  {
  }

  /** Typing a price that does not parse leaves a price error. */
  lemma UnparsablePriceIsRejected(f: FormData, value: string, parseCents: string -> Option<int>)
    requires parseCents(value).None?
    ensures Price in Validate(HandleChange(f, Price, value, parseCents))
    ensures HandleSubmit(HandleChange(f, Price, value, parseCents)) == None
  {
  }
}
