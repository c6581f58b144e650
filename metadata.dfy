/** Article metadata: the literal mapping an article's `__article__.py`
    holds, its validation (`_validate_info_file`) and the title slug
    (`_url_sanitise_title`), all in lib/hbar.py. */
module Metadata {
  import opened Text
  import Slugs

  /** The values `ast.literal_eval` produces that matter here. */
  datatype Value =
    | Str(s: string)
    | Int(i: int)
    | Bool(b: bool)
    | NoneValue
    | List(items: seq<Value>)

  /** A metadata record: the dictionary of an info file or a store file. */
  type Record = map<string, Value>

  /** Python's `repr` of a value, as it appears inside a printed list.
      Strings are quoted with `'` and their contents are not escaped. */
  function Repr(v: Value): string
    decreases v, 2
  {
    match v
    case Str(s) => "'" + s + "'"
    case _ => ToText(v)
  }

  function ReprItems(items: seq<Value>): string
    decreases items, 0
  {
    if items == [] then ""
    else if |items| == 1 then Repr(items[0])
    else Repr(items[0]) + ", " + ReprItems(items[1..])
  }

  /** Python's `str(v)`, which never raises. */
  function ToText(v: Value): string
    decreases v, 1
  {
    match v
    case Str(s) => s
    case Int(i) => IntToString(i)
    case Bool(b) => if b then "True" else "False"
    case NoneValue => "None"
    case List(items) => "[" + ReprItems(items) + "]"
  }

  /** The casts named in INFO_NECESSARY and INFO_OPTIONAL. */
  datatype Cast = ToStr | ToDate | ToStrList

  /** What applying a cast does: a value, a `TypeError` or a `ValueError`. */
  datatype CastOutcome = Cast(value: Value) | TypeErr | ValueErr

  /** `cast_list(str)`: iterating a string yields its characters, iterating a
      list yields its items; any other value is not iterable (`TypeError`). */
  function StrList(v: Value): (r: CastOutcome)
    ensures v.Str? ==> r == Cast(List(seq(|v.s|, i requires 0 <= i < |v.s| => Str([v.s[i]]))))
    ensures v.List? ==> r.Cast? && r.value.List? && |r.value.items| == |v.items|
    ensures v.List? ==> forall i :: 0 <= i < |v.items| ==> r.value.items[i] == Str(ToText(v.items[i]))
    ensures !v.Str? && !v.List? <==> r.TypeErr?
  {
    match v
    case Str(s) => Cast(List(seq(|s|, i requires 0 <= i < |s| => Str([s[i]]))))
    case List(items) => Cast(List(seq(|items|, i requires 0 <= i < |items| => Str(ToText(items[i])))))
    case _ => TypeErr
  }

  /** `_normalise_date`: `fromisoformat` raises `TypeError` on a value that
      is not a string and `ValueError` on a malformed one.  Parsing and
      re-printing the timestamp in UTC is the parameter `normalise`, which
      answers None for a malformed string. */
  function NormaliseDate(v: Value, normalise: string -> Option<string>): (r: CastOutcome)
    ensures r.TypeErr? <==> !v.Str?
    ensures r.ValueErr? <==> v.Str? && normalise(v.s).None?
    ensures r.Cast? ==> r.value == Str(normalise(v.s).value)
  {
    match v
    case Str(s) => (match normalise(s) case Some(d) => Cast(Str(d)) case None => ValueErr)
    case _ => TypeErr
  }

  function ApplyCast(c: Cast, v: Value, normalise: string -> Option<string>): (r: CastOutcome)
    ensures r.ValueErr? ==> c == ToDate
    ensures c == ToStr ==> r == Cast(Str(ToText(v)))
  {
    match c
    case ToStr => Cast(Str(ToText(v)))
    case ToDate => NormaliseDate(v, normalise)
    case ToStrList => StrList(v)
  }

  /** The keys of INFO_NECESSARY, in declaration order. */
  const NecessaryKeys: seq<string> := ["title", "date", "tags", "id"]

  /** The keys of INFO_OPTIONAL, in declaration order. */
  const OptionalKeys: seq<string> :=
    ["short title", "edits", "related", "image", "image_alt", "description"]

  /** The cast INFO_NECESSARY or INFO_OPTIONAL gives each key. */
  function CastOf(k: string): (c: Cast)
    ensures c == ToDate <==> k == "date"
  {
    if k == "date" then ToDate
    else if k == "tags" || k == "edits" || k == "related" then ToStrList
    else ToStr
  }

  /** The outcome of casting the value `info` holds for `k`. */
  function CastKey(k: string, info: Record, normalise: string -> Option<string>): CastOutcome
    requires k in info
  {
    ApplyCast(CastOf(k), info[k], normalise)
  }

  /** The exception `_validate_info_file` raises. */
  datatype InfoError =
    | Invalid(missing: seq<string>, badType: seq<string>)  // the aggregated ValueError
    | BadDate                                              // fromisoformat's own ValueError

  /** Keys of `keys` absent from `info`, in order. */
  function MissingIn(keys: seq<string>, info: Record): seq<string>
  {
    if keys == [] then []
    else MissingIn(keys[..|keys| - 1], info) + (if keys[|keys| - 1] !in info then [keys[|keys| - 1]] else [])
  }

  /** Keys of `keys` present in `info` whose cast raises `TypeError`, in order. */
  function BadTypeIn(keys: seq<string>, info: Record, normalise: string -> Option<string>): seq<string>
  {
    if keys == [] then []
    else
      var k := keys[|keys| - 1];
      BadTypeIn(keys[..|keys| - 1], info, normalise)
      + (if k in info && CastKey(k, info, normalise).TypeErr? then [k] else [])
  }

  /** Every key of `keys` absent from `info` is reported, and nothing else. */
  lemma {:induction false} MissingInContents(keys: seq<string>, info: Record)
    ensures forall k :: k in MissingIn(keys, info) <==> k in keys && k !in info
  {
    if keys != [] {
      MissingInContents(keys[..|keys| - 1], info);
      assert keys == keys[..|keys| - 1] + [keys[|keys| - 1]];
    }
  }

  /** Every key of `keys` present in `info` whose cast raises `TypeError`
      is reported, and nothing else. */
  lemma {:induction false} BadTypeInContents(keys: seq<string>, info: Record, normalise: string -> Option<string>)
    ensures forall k :: k in BadTypeIn(keys, info, normalise) <==>
      k in keys && k in info && CastKey(k, info, normalise).TypeErr?
  {
    if keys != [] {
      BadTypeInContents(keys[..|keys| - 1], info, normalise);
      assert keys == keys[..|keys| - 1] + [keys[|keys| - 1]];
    }
  }

  function MissingKeys(info: Record): seq<string>
  {
    MissingIn(NecessaryKeys, info)
  }

  function BadTypeKeys(info: Record, normalise: string -> Option<string>): seq<string>
  {
    BadTypeIn(NecessaryKeys, info, normalise) + BadTypeIn(OptionalKeys, info, normalise)
  }

  /** A `date` that is a string but not an ISO timestamp aborts validation
      at once with `fromisoformat`'s ValueError. */
  predicate DateMalformed(info: Record, normalise: string -> Option<string>)
  {
    "date" in info && CastKey("date", info, normalise).ValueErr?
  }

  /** The validated record: every known key present in `info` whose cast
      succeeds, cast. */
  function Validated(info: Record, normalise: string -> Option<string>): map<string, Value>
  {
    map k | k in info && (k in NecessaryKeys || k in OptionalKeys) && CastKey(k, info, normalise).Cast?
      :: CastKey(k, info, normalise).value
  }

  /** `m` once each key of `keys` present in `info` whose cast succeeds is
      stored in it, as the loops of `_validate_info_file` do. */
  function CastInto(m: map<string, Value>, keys: seq<string>, info: Record, normalise: string -> Option<string>): map<string, Value>
  {
    if keys == [] then m
    else
      var before := CastInto(m, keys[..|keys| - 1], info, normalise);
      var k := keys[|keys| - 1];
      if k in info && CastKey(k, info, normalise).Cast? then before[k := CastKey(k, info, normalise).value] else before
  }

  lemma {:induction false} CastIntoContents(m: map<string, Value>, keys: seq<string>, info: Record, normalise: string -> Option<string>)
    ensures forall k :: k in CastInto(m, keys, info, normalise) <==>
      k in m || (k in keys && k in info && CastKey(k, info, normalise).Cast?)
    ensures forall k :: k in keys && k in info && CastKey(k, info, normalise).Cast? ==>
      CastInto(m, keys, info, normalise)[k] == CastKey(k, info, normalise).value
    ensures forall k :: k in m && k !in keys ==> CastInto(m, keys, info, normalise)[k] == m[k]
  {
    if keys != [] {
      var prefix := keys[..|keys| - 1];
      CastIntoContents(m, prefix, info, normalise);
      assert keys == prefix + [keys[|keys| - 1]];
    }
  }

  /** The two loops store exactly the validated record. */
  lemma CastIntoValidated(info: Record, normalise: string -> Option<string>)
    ensures CastInto(CastInto(map[], NecessaryKeys, info, normalise), OptionalKeys, info, normalise)
      == Validated(info, normalise)
  {
    var m := CastInto(map[], NecessaryKeys, info, normalise);
    CastIntoContents(map[], NecessaryKeys, info, normalise);
    CastIntoContents(m, OptionalKeys, info, normalise);
  }

  /** What `_validate_info_file` returns or the exception it raises. */
  function Validate(info: Record, normalise: string -> Option<string>): Result<map<string, Value>, InfoError>
  {
    if DateMalformed(info, normalise) then Err(BadDate)
    else if MissingKeys(info) != [] || BadTypeKeys(info, normalise) != [] then
      Err(Invalid(MissingKeys(info), BadTypeKeys(info, normalise)))
    else Ok(Validated(info, normalise))
  }

  /** `_validate_info_file(info)`: casts the required keys and the optional
      keys present, collecting every missing key and every key whose cast
      raises `TypeError` before raising. */
  method ValidateInfoFile(info: Record, normalise: string -> Option<string>)
    returns (r: Result<map<string, Value>, InfoError>)
    ensures r == Validate(info, normalise)
  {
    var out, missing, badType, dateError := CastNecessary(info, normalise);
    if dateError {
      return Err(BadDate);
    }
    var required := out;
    var i := 0;
    while i < |OptionalKeys|
      invariant 0 <= i <= |OptionalKeys|
      invariant badType == BadTypeIn(NecessaryKeys, info, normalise) + BadTypeIn(OptionalKeys[..i], info, normalise)
      invariant out == CastInto(required, OptionalKeys[..i], info, normalise)
    {
      var key := OptionalKeys[i];
      CastStep(required, OptionalKeys, i, info, normalise);
      if key in info {
        var res := CastKey(key, info, normalise);
        if res.TypeErr? {
          ghost var necessary := BadTypeIn(NecessaryKeys, info, normalise);
          assert necessary + BadTypeIn(OptionalKeys[..i], info, normalise) + [key]
            == necessary + (BadTypeIn(OptionalKeys[..i], info, normalise) + [key]);
          badType := badType + [key];
        } else {
          out := out[key := res.value];
        }
      }
      i := i + 1;
    }
    assert OptionalKeys[..i] == OptionalKeys;
    if missing != [] || badType != [] {
      return Err(Invalid(missing, badType));
    }
    CastIntoValidated(info, normalise);
    return Ok(out);
  }

  /** One more key: its `TypeError` is reported after the others, or its
      cast value is added. */
  lemma CastStep(m: map<string, Value>, keys: seq<string>, i: nat, info: Record, normalise: string -> Option<string>)
    requires i < |keys|
    ensures var k := keys[i];
      && BadTypeIn(keys[..i + 1], info, normalise)
         == BadTypeIn(keys[..i], info, normalise) + (if k in info && CastKey(k, info, normalise).TypeErr? then [k] else [])
      && CastInto(m, keys[..i + 1], info, normalise)
         == (if k in info && CastKey(k, info, normalise).Cast?
             then CastInto(m, keys[..i], info, normalise)[k := CastKey(k, info, normalise).value]
             else CastInto(m, keys[..i], info, normalise))
  {
    assert keys[..i + 1][..i] == keys[..i];
  }

  /** The loop of `_validate_info_file` over INFO_NECESSARY; it stops at
      once when `fromisoformat` rejects the date. */
  method CastNecessary(info: Record, normalise: string -> Option<string>)
    returns (out: map<string, Value>, missing: seq<string>, badType: seq<string>, dateError: bool)
    ensures dateError <==> DateMalformed(info, normalise)
    ensures !dateError ==> missing == MissingKeys(info)
    ensures !dateError ==> badType == BadTypeIn(NecessaryKeys, info, normalise)
    ensures !dateError ==> out == CastInto(map[], NecessaryKeys, info, normalise)
  {
    out, missing, badType, dateError := map[], [], [], false;
    var i := 0;
    while i < |NecessaryKeys|
      invariant 0 <= i <= |NecessaryKeys|
      invariant missing == MissingIn(NecessaryKeys[..i], info)
      invariant badType == BadTypeIn(NecessaryKeys[..i], info, normalise)
      invariant out == CastInto(map[], NecessaryKeys[..i], info, normalise)
      invariant forall j :: 0 <= j < i && NecessaryKeys[j] in info ==> !CastKey(NecessaryKeys[j], info, normalise).ValueErr?
    {
      var key := NecessaryKeys[i];
      assert NecessaryKeys[..i + 1][..i] == NecessaryKeys[..i];
      if key !in info {
        missing := missing + [key];
      } else {
        match CastKey(key, info, normalise)
        case Cast(v) =>
          out := out[key := v];
        case TypeErr =>
          badType := badType + [key];
        case ValueErr =>
          dateError := true;
          return;
      }
      i := i + 1;
    }
    assert NecessaryKeys[..i] == NecessaryKeys;
    assert NecessaryKeys[1] == "date";
  }

  /** Validation succeeds exactly when every required key is present, the
      date parses and no known key's cast raises `TypeError`. */
  lemma ValidateSucceeds(info: Record, normalise: string -> Option<string>)
    ensures Validate(info, normalise).Ok? <==>
      && (forall k :: k in NecessaryKeys ==> k in info)
      && !DateMalformed(info, normalise)
      && (forall k :: k in info && (k in NecessaryKeys || k in OptionalKeys) ==> !CastKey(k, info, normalise).TypeErr?)
  {
    MissingInContents(NecessaryKeys, info);
    BadTypeInContents(NecessaryKeys, info, normalise);
    BadTypeInContents(OptionalKeys, info, normalise);
    if MissingKeys(info) != [] {
      assert MissingKeys(info)[0] in MissingKeys(info);
    }
    if BadTypeIn(NecessaryKeys, info, normalise) != [] {
      assert BadTypeIn(NecessaryKeys, info, normalise)[0] in BadTypeIn(NecessaryKeys, info, normalise);
    }
    if BadTypeIn(OptionalKeys, info, normalise) != [] {
      assert BadTypeIn(OptionalKeys, info, normalise)[0] in BadTypeIn(OptionalKeys, info, normalise);
    }
  }

  /** A validated record holds every required key and exactly the optional
      keys the info file has, each cast; unknown keys are dropped. */
  lemma ValidatedKeys(info: Record, normalise: string -> Option<string>)
    requires Validate(info, normalise).Ok?
    ensures forall k :: k in Validate(info, normalise).value <==>
      k in NecessaryKeys || (k in OptionalKeys && k in info)
    ensures forall k :: k in Validate(info, normalise).value ==>
      Validate(info, normalise).value[k] == CastKey(k, info, normalise).value
  {
    ValidateSucceeds(info, normalise);
    forall k | k in info && (k in NecessaryKeys || k in OptionalKeys)
      ensures CastKey(k, info, normalise).Cast?
    {
      if k == "date" {
        assert !DateMalformed(info, normalise);
      } else {
        assert CastOf(k) != ToDate;
      }
    }
  }

  /** A failed validation reports every missing required key and every
      present key whose cast raises `TypeError`, not just the first. */
  lemma ValidateReportsEveryProblem(info: Record, normalise: string -> Option<string>)
    requires Validate(info, normalise).Err? && Validate(info, normalise).error.Invalid?
    ensures forall k :: k in Validate(info, normalise).error.missing <==> k in NecessaryKeys && k !in info
    ensures forall k :: k in Validate(info, normalise).error.badType <==>
      k in info && (k in NecessaryKeys || k in OptionalKeys) && CastKey(k, info, normalise).TypeErr?
  {
    MissingInContents(NecessaryKeys, info);
    BadTypeInContents(NecessaryKeys, info, normalise);
    BadTypeInContents(OptionalKeys, info, normalise);
  }

  /** An info file with a numeric date and a boolean tag list, and neither
      title nor id, is rejected with all four problems listed. */
  lemma ValidateCollectsExample(normalise: string -> Option<string>)
    ensures Validate(map["date" := Int(5), "tags" := Bool(true)], normalise)
      == Err(Invalid(["title", "id"], ["date", "tags"]))
  {
    var info := map["date" := Int(5), "tags" := Bool(true)];
    var k1: seq<string>, k2: seq<string>, k3: seq<string> := ["title"], ["title", "date"], ["title", "date", "tags"];
    assert k1[..0] == [] && k2[..1] == k1 && k3[..2] == k2 && NecessaryKeys[..3] == k3;
    assert MissingIn(k1, info) == ["title"] && BadTypeIn(k1, info, normalise) == [];
    assert MissingIn(k2, info) == ["title"];
    assert CastKey("date", info, normalise).TypeErr? && CastKey("tags", info, normalise).TypeErr?;
    assert BadTypeIn(k2, info, normalise) == ["date"];
    assert MissingIn(k3, info) == ["title"] && BadTypeIn(k3, info, normalise) == ["date", "tags"];
    assert MissingKeys(info) == ["title", "id"];
    assert BadTypeIn(NecessaryKeys, info, normalise) == ["date", "tags"];
    assert forall k :: k in OptionalKeys ==> k !in info;
    BadTypeInAbsent(OptionalKeys, info, normalise);
  }

  lemma {:induction false} BadTypeInAbsent(keys: seq<string>, info: Record, normalise: string -> Option<string>)
    requires forall k :: k in keys ==> k !in info
    ensures BadTypeIn(keys, info, normalise) == []
  {
    if keys != [] {
      BadTypeInAbsent(keys[..|keys| - 1], info, normalise);
    }
  }

  /** A date string `fromisoformat` rejects aborts validation before the
      missing title is reported. */
  lemma ValidateDateAbortsExample()
    ensures Validate(map["date" := Str("soon")], s => None) == Err(BadDate)
  {
  }

  /** `_url_sanitise_title(info)`: the slug of the short title when there is
      one, else of the title.  None stands for the exception raised when
      neither key is present (`KeyError`) or the chosen value is not a
      string (`AttributeError` from `lower`). */
  function UrlSanitiseTitle(record: Record): (r: Option<string>)
    ensures r.Some? ==> Slugs.IsSlug(r.value)
    ensures "short title" in record ==>
      (r.Some? <==> record["short title"].Str?) &&
      (r.Some? ==> r.value == Slugs.SanitiseTag(record["short title"].s))
    ensures "short title" !in record ==>
      (r.Some? <==> "title" in record && record["title"].Str?) &&
      (r.Some? ==> r.value == Slugs.SanitiseTag(record["title"].s))
  {
    var key := if "short title" in record then "short title" else "title";
    if key in record && record[key].Str? then
      Slugs.SanitiseTagIsSlug(record[key].s);
      Some(Slugs.SanitiseTag(record[key].s))
    else None
  }
}
