/** normalizeFood (tools/import_foods.js:37-52): the fixed-shape food document built from one
    element of the parsed foods.json array. */
module Foods {
  import opened JsValues

  /** The value of `admin.firestore.FieldValue.serverTimestamp()`: a marker that the store
      replaces with its own commit time, not a value computed here. */
  datatype FieldValue = ServerTimestamp

  /** The document normalizeFood returns; every field is always present. */
  datatype Food = Food(
    title: string,
    subtitle: string,
    category: string,
    description: string,
    imageUrl: string,
    time: string,
    price: JsNumber,
    rating: JsNumber,
    calories: JsNumber,
    ingredients: seq<JsValue>,
    foodType: seq<JsValue>,
    updatedAt: FieldValue)

  /** `String(v || '').trim()`: a trimmed string, empty exactly when v is falsy or converts to
      whitespace only. */
  function StringField(v: JsValue): (r: string)
    requires !ToPrimitiveThrows(v)
    ensures IsTrimmed(r)
    ensures !Truthy(v) ==> r == ""
    ensures r == "" <==> !Truthy(v) || AllWhiteSpace(ToStr(v))
    ensures Truthy(v) && IsTrimmed(ToStr(v)) ==> r == ToStr(v)
  {
    Trim(ToStr(Or(v, Str(""))))
  }

  /** `Number(v || 0)`: 0 for every falsy v, and otherwise `Number(v)`. The `|| 0` only makes a
      difference for `undefined`, which `Number` alone would turn into NaN. */
  function NumberField(v: JsValue): (r: JsNumber)
    requires !ToPrimitiveThrows(v)
    ensures !Truthy(v) ==> r == Int(0)
    ensures v != Undefined ==> r == ToNumber(v)
  {
    ToNumber(Or(v, Num(0)))
  }

  /** `Array.isArray(v) ? v : []`. */
  function ListField(v: JsValue): (r: seq<JsValue>)
    ensures IsArray(v) ==> r == v.elems
    ensures r != [] ==> IsArray(v)
  {
    if IsArray(v) then v.elems else []
  }

  /** One of the nine fields that normalizeFood passes to `String` or `Number` (lines 39-47)
      holds a value whose conversion throws. */
  predicate FieldConversionThrows(doc: JsValue)
    requires !IsNullish(doc)
    ensures FieldConversionThrows(doc) ==> doc.Obj?
  {
    || ToPrimitiveThrows(Prop(doc, "title")) || ToPrimitiveThrows(Prop(doc, "subtitle"))
    || ToPrimitiveThrows(Prop(doc, "category")) || ToPrimitiveThrows(Prop(doc, "description"))
    || ToPrimitiveThrows(Prop(doc, "imageUrl")) || ToPrimitiveThrows(Prop(doc, "time"))
    || ToPrimitiveThrows(Prop(doc, "price")) || ToPrimitiveThrows(Prop(doc, "rating"))
    || ToPrimitiveThrows(Prop(doc, "calories"))
  }

  /** normalizeFood(doc) throws a TypeError: doc is `null` (a JSON array may hold one) or
      `undefined`, whose properties cannot be read, or one of its converted fields throws. */
  predicate NormalizeThrows(doc: JsValue)
    ensures IsNullish(doc) ==> NormalizeThrows(doc)
    ensures NormalizeThrows(doc) ==> IsNullish(doc) || doc.Obj?
  {
    IsNullish(doc) || FieldConversionThrows(doc)
  }

  /** normalizeFood(doc): the TypeError it may throw, or the document it returns. */
  function NormalizeFood(doc: JsValue): (r: Result<Food>)
    ensures r.TypeError? <==> NormalizeThrows(doc)
    ensures !IsNullish(doc) && (doc.Obj? ==> forall key :: key in doc.props ==> !ToPrimitiveThrows(doc.props[key]))
      ==> r.Ok?
    ensures r.Ok? ==> var f := r.value;
      && f.updatedAt == ServerTimestamp
      && IsTrimmed(f.title) && IsTrimmed(f.subtitle) && IsTrimmed(f.category)
      && IsTrimmed(f.description) && IsTrimmed(f.imageUrl) && IsTrimmed(f.time)
      && (f.title == "" <==> !Truthy(Prop(doc, "title")) || AllWhiteSpace(ToStr(Prop(doc, "title"))))
  {
    if NormalizeThrows(doc) then TypeError
    else Ok(Food(
      title := StringField(Prop(doc, "title")),
      subtitle := StringField(Prop(doc, "subtitle")),
      category := StringField(Prop(doc, "category")),
      description := StringField(Prop(doc, "description")),
      imageUrl := StringField(Prop(doc, "imageUrl")),
      time := StringField(Prop(doc, "time")),
      price := NumberField(Prop(doc, "price")),
      rating := NumberField(Prop(doc, "rating")),
      calories := NumberField(Prop(doc, "calories")),
      ingredients := ListField(Prop(doc, "ingredients")),
      foodType := ListField(Prop(doc, "foodType")),
      updatedAt := ServerTimestamp))
  }

  /** Fields that are missing or falsy get their defaults: "" for the six strings, 0 for the
      three numbers, [] for the two lists; a list field that holds an array keeps it
      unchanged. */
  lemma {:induction false} MissingFieldsDefault(doc: JsValue)
    requires !NormalizeThrows(doc)
    ensures var f := NormalizeFood(doc).value;
      && (!Truthy(Prop(doc, "title")) ==> f.title == "")
      && (!Truthy(Prop(doc, "subtitle")) ==> f.subtitle == "")
      && (!Truthy(Prop(doc, "category")) ==> f.category == "")
      && (!Truthy(Prop(doc, "description")) ==> f.description == "")
      && (!Truthy(Prop(doc, "imageUrl")) ==> f.imageUrl == "")
      && (!Truthy(Prop(doc, "time")) ==> f.time == "")
      && (!Truthy(Prop(doc, "price")) ==> f.price == Int(0))
      && (!Truthy(Prop(doc, "rating")) ==> f.rating == Int(0))
      && (!Truthy(Prop(doc, "calories")) ==> f.calories == Int(0))
      && (IsArray(Prop(doc, "ingredients")) ==> f.ingredients == Prop(doc, "ingredients").elems)
      && (!IsArray(Prop(doc, "ingredients")) ==> f.ingredients == [])
      && (IsArray(Prop(doc, "foodType")) ==> f.foodType == Prop(doc, "foodType").elems)
      && (!IsArray(Prop(doc, "foodType")) ==> f.foodType == [])
  {
  }

  /** A record with no properties at all normalizes to the all-defaults document. */
  lemma EmptyRecordNormalizesToDefaults()
    ensures NormalizeFood(Obj(map[])) ==
      Ok(Food("", "", "", "", "", "", Int(0), Int(0), Int(0), [], [], ServerTimestamp))
  {
  }

  /** A record holding only a title normalizes to that title, trimmed, with every other field
      at its default. */
  lemma TitleOnlyNormalizes(t: string)
    ensures NormalizeFood(Obj(map["title" := Str(t)])) ==
      Ok(Food(Trim(t), "", "", "", "", "", Int(0), Int(0), Int(0), [], [], ServerTimestamp))
  {
    var doc := Obj(map["title" := Str(t)]);
    TitleOnlyProps(t);
    assert NormalizeFood(doc) == Ok(Food(
      StringField(Str(t)), StringField(Undefined), StringField(Undefined), StringField(Undefined),
      StringField(Undefined), StringField(Undefined), NumberField(Undefined), NumberField(Undefined),
      NumberField(Undefined), ListField(Undefined), ListField(Undefined), ServerTimestamp));
  }

  /** The properties normalizeFood reads from a record holding only a title. */
  lemma TitleOnlyProps(t: string)
    ensures var doc := Obj(map["title" := Str(t)]);
      && Prop(doc, "title") == Str(t)
      && Prop(doc, "subtitle") == Undefined && Prop(doc, "category") == Undefined
      && Prop(doc, "description") == Undefined && Prop(doc, "imageUrl") == Undefined
      && Prop(doc, "time") == Undefined && Prop(doc, "price") == Undefined
      && Prop(doc, "rating") == Undefined && Prop(doc, "calories") == Undefined
      && Prop(doc, "ingredients") == Undefined && Prop(doc, "foodType") == Undefined
  {
    var doc := Obj(map["title" := Str(t)]);
    forall key | key in ["subtitle", "category", "description", "imageUrl", "time", "price",
      "rating", "calories", "ingredients", "foodType"]
      ensures Prop(doc, key) == Undefined
    {
      assert key != "title";
    }
  }

  /** A title that is an object with its own `toString` property (`{"toString": 1}`, say) makes
      `String(doc.title)` throw, so normalizeFood throws on a record that is not null. */
  lemma OwnToStringTitleThrows(props: map<string, JsValue>)
    requires "toString" in props
    ensures NormalizeFood(Obj(map["title" := Obj(props)])).TypeError?
  {
    assert Prop(Obj(map["title" := Obj(props)]), "title") == Obj(props);
  }

  /** The document as a plain JSON object (without `updatedAt`, which is a store marker and not
      a JSON value); defined when its numbers are integers. */
  function AsRecord(f: Food): JsValue
    requires f.price.Int? && f.rating.Int? && f.calories.Int?
  {
    Obj(map[
      "title" := Str(f.title), "subtitle" := Str(f.subtitle), "category" := Str(f.category),
      "description" := Str(f.description), "imageUrl" := Str(f.imageUrl), "time" := Str(f.time),
      "price" := Num(f.price.i), "rating" := Num(f.rating.i), "calories" := Num(f.calories.i),
      "ingredients" := Arr(f.ingredients), "foodType" := Arr(f.foodType)])
  }

  /** Normalizing an already normalized document changes nothing: its strings are trimmed, its
      integers and lists pass through, and its empty strings and zeros stay defaults. */
  lemma {:induction false} NormalizeIsIdempotent(doc: JsValue)
    requires NormalizeFood(doc).Ok?
    requires var f := NormalizeFood(doc).value; f.price.Int? && f.rating.Int? && f.calories.Int?
    ensures NormalizeFood(AsRecord(NormalizeFood(doc).value)) == NormalizeFood(doc)
  {
    var f := NormalizeFood(doc).value;
    var g := AsRecord(f);
    AsRecordProps(f);
    AsRecordValueProps(f);
    AsRecordConverts(f);
    StringFieldFixed(f.title);
    StringFieldFixed(f.subtitle);
    StringFieldFixed(f.category);
    StringFieldFixed(f.description);
    StringFieldFixed(f.imageUrl);
    StringFieldFixed(f.time);
    NumberFieldFixed(f.price);
    NumberFieldFixed(f.rating);
    NumberFieldFixed(f.calories);
    assert NormalizeFood(g) == Ok(Food(f.title, f.subtitle, f.category, f.description, f.imageUrl,
      f.time, f.price, f.rating, f.calories, f.ingredients, f.foodType, ServerTimestamp));
  }

  /** The string properties of AsRecord(f) as normalizeFood reads them. */
  lemma AsRecordProps(f: Food)
    requires f.price.Int? && f.rating.Int? && f.calories.Int?
    ensures var g := AsRecord(f);
      && Prop(g, "title") == Str(f.title) && Prop(g, "subtitle") == Str(f.subtitle)
      && Prop(g, "category") == Str(f.category) && Prop(g, "description") == Str(f.description)
      && Prop(g, "imageUrl") == Str(f.imageUrl) && Prop(g, "time") == Str(f.time)
  {
  }

  /** The number and list properties of AsRecord(f) as normalizeFood reads them. */
  lemma AsRecordValueProps(f: Food)
    requires f.price.Int? && f.rating.Int? && f.calories.Int?
    ensures var g := AsRecord(f);
      && Prop(g, "price") == Num(f.price.i) && Prop(g, "rating") == Num(f.rating.i)
      && Prop(g, "calories") == Num(f.calories.i)
      && Prop(g, "ingredients") == Arr(f.ingredients) && Prop(g, "foodType") == Arr(f.foodType)
  {
  }

  /** Normalizing AsRecord(f) does not throw: every converted field is a string or a number. */
  lemma AsRecordConverts(f: Food)
    requires f.price.Int? && f.rating.Int? && f.calories.Int?
    ensures !NormalizeThrows(AsRecord(f))
  {
    AsRecordProps(f);
    AsRecordValueProps(f);
  }

  /** An integer read back through `Number(n || 0)` is itself. */
  lemma NumberFieldFixed(n: JsNumber)
    requires n.Int?
    ensures NumberField(Num(n.i)) == n
  {
  }

  /** A trimmed string read back through `String(s || '').trim()` is itself. */
  lemma StringFieldFixed(s: string)
    requires IsTrimmed(s)
    ensures StringField(Str(s)) == s
  {
  }
}
