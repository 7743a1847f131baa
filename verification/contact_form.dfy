/**
  The contact form's data: its state object, the field updates that keep it,
  and the request body it submits, `encode({ "form-name": "contact", ...state })`
  with `encodeURIComponent` as the encoder. The request itself is not modelled.
 */
module ContactForm {

  import opened Wrappers
  import opened JsObject
  import opened FormEncoding
  import opened UriComponent

  /** Form name the hosting service routes the submission by. */
  const FormName: string := "contact"

  /** The fields of the state, in declaration order. */
  const StateFields: seq<string> := ["name", "email", "message", "alert"]

  const InitialState: Obj := [("name", ""), ("email", ""), ("message", ""), ("alert", "")]

  /** A state object has exactly the declared fields, in declaration order. */
  predicate IsFormState(state: Obj) {
    Keys(state) == StateFields
  }

  lemma InitialStateIsFormState()
    ensures IsFormState(InitialState)
    ensures forall k :: k in StateFields ==> Lookup(InitialState, k) == Some("")
  {
  }

  /** `setState({ [field]: value })`: a shallow merge into the current state. It sets the field and moves no other. */
  function SetField(state: Obj, field: string, value: string): (next: Obj)
    ensures Lookup(next, field) == Some(value)
    ensures Keys(state) <= Keys(next)
  {
    SpreadLookup(state, [(field, value)], field);
    Spread(state, [(field, value)])
  }

  /** An update sets its field, leaves every other field alone, and keeps a form state a form state. */
  lemma SetFieldEffect(state: Obj, field: string, value: string)
    ensures Lookup(SetField(state, field, value), field) == Some(value)
    ensures forall k :: k != field ==> Lookup(SetField(state, field, value), k) == Lookup(state, k)
    ensures IsFormState(state) && field in StateFields ==> IsFormState(SetField(state, field, value))
  {
    var update := [(field, value)];
    assert Keys(update) == [field];
    SpreadLookup(state, update, field);
    forall k | k != field
      ensures Lookup(SetField(state, field, value), k) == Lookup(state, k)
    {
      SpreadLookup(state, update, k);
    }
    if field in Keys(state) {
      SpreadExistingKeys(state, update);
    }
  }

  /** The object the form submits: the form name first, then the state spread over it. Its first key is always `form-name`. */
  function SubmittedObject(state: Obj): (o: Obj)
    ensures |o| >= 1 && o[0].0 == "form-name"
  {
    var o := Spread([("form-name", FormName)], state);
    assert Keys([("form-name", FormName)]) == ["form-name"];
    KeysAt(o, 0);
    o
  }

  /**
    The state's values reach the submitted object unchanged. When the state
    has no `form-name` key, that key comes first and keeps the form name.
   */
  lemma SubmittedObjectContents(state: Obj)
    requires DistinctKeys(state)
    ensures forall k :: k in Keys(state) ==> Lookup(SubmittedObject(state), k) == Lookup(state, k)
    ensures "form-name" !in Keys(state) ==> Keys(SubmittedObject(state)) == ["form-name"] + Keys(state)
    ensures "form-name" !in Keys(state) ==> Lookup(SubmittedObject(state), "form-name") == Some(FormName)
  {
    var base := [("form-name", FormName)];
    assert Keys(base) == ["form-name"];
    forall k | k in Keys(state)
      ensures Lookup(SubmittedObject(state), k) == Lookup(state, k)
    {
      SpreadLookup(base, state, k);
    }
    if "form-name" !in Keys(state) {
      SpreadLookup(base, state, "form-name");
      SpreadNewKeys(base, state);
    }
  }

  /** The request body `onSubmit` builds: the submitted object, URI-component encoded, one `&` between entries. */
  function SubmittedBody(state: Obj): (body: string)
    ensures Count(body, '&') == |SubmittedObject(state)| - 1
  {
    UriComponentFitsForm();
    AmpersandCount(EncodeUriComponent, SubmittedObject(state));
    Encode(EncodeUriComponent, SubmittedObject(state))
  }

  /** The real encoder never emits `&` or `=`, and the decoder inverts it. */
  lemma UriComponentFitsForm()
    ensures EncoderSafe(EncodeUriComponent)
    ensures forall s :: DecodeUriComponent(EncodeUriComponent(s)) == Some(s)
  {
    forall s
      ensures '&' !in EncodeUriComponent(s) && '=' !in EncodeUriComponent(s)
      ensures DecodeUriComponent(EncodeUriComponent(s)) == Some(s)
    {
      EncoderOmitsFormDelimiters(s);
      DecodeEncode(s);
    }
  }

  /**
    For any state the form can be in, the body lists `form-name` first, then
    the state fields in declaration order; `form-name` stays `contact`, since
    the state has no key of that name to override it.
   */
  lemma SubmittedFields(state: Obj)
    requires IsFormState(state)
    ensures Keys(SubmittedObject(state)) == ["form-name", "name", "email", "message", "alert"]
    ensures Lookup(SubmittedObject(state), "form-name") == Some("contact")
    ensures forall k :: k in StateFields ==> Lookup(SubmittedObject(state), k) == Lookup(state, k)
  {
    assert DistinctKeys(state);
    SubmittedObjectContents(state);
  }

  /** Updating any declared field keeps the state a form state, so the body order holds for every reachable state. */
  lemma SetFieldKeepsShape(state: Obj, field: string, value: string)
    requires IsFormState(state)
    requires field in StateFields
    ensures IsFormState(SetField(state, field, value))
    ensures Keys(SubmittedObject(SetField(state, field, value))) == ["form-name"] + StateFields
  {
    SetFieldEffect(state, field, value);
    SubmittedFields(SetField(state, field, value));
  }

  /** The body parses and decodes back to exactly the submitted object. */
  lemma BodyRoundTrip(state: Obj)
    ensures DecodeEntries(DecodeUriComponent, Parse(SubmittedBody(state))) == Some(SubmittedObject(state))
  {
    UriComponentFitsForm();
    RoundTrip(EncodeUriComponent, DecodeUriComponent, SubmittedObject(state));
  }

  /**
    The form name and its key consist of unreserved characters, so they are sent as written.
    The strings arrive as parameters pinned by `requires` rather than as literals, which keeps
    the verifier from unfolding the encoder over literal text.
   */
  lemma FormNameUnescaped(key: string, value: string)
    requires key == "form-name" && value == FormName
    ensures EncodeUriComponent(key) == key
    ensures EncodeUriComponent(value) == value
  {
    assert forall i :: 0 <= i < |key| ==> IsUnreserved(key[i]);
    UnreservedUnchanged(key);
    assert forall i :: 0 <= i < |value| ==> IsUnreserved(value[i]);
    UnreservedUnchanged(value);
  }

  /** The submitted object of a form state holds five entries, the form name first. */
  lemma SubmittedObjectHead(state: Obj)
    requires IsFormState(state)
    ensures |SubmittedObject(state)| == 5
    ensures SubmittedObject(state)[0] == ("form-name", FormName)
  {
    var o := SubmittedObject(state);
    SubmittedFields(state);
    assert |Keys(o)| == 5;
    assert Keys(o)[0] == "form-name";
    assert Lookup(o, "form-name") == Some(o[0].1);
  }

  /** The text of the form-name entry; parameters pinned by `requires` keep literal unfolding local. */
  lemma FormNameEntryText(key: string, value: string)
    requires key == "form-name" && value == FormName
    ensures |key| + |value| + 2 == 18
    ensures key + "=" + value + "&" == "form-name=contact&"
  {
  }

  /** A body whose first entry is the form name begins `form-name=contact&`. */
  lemma FormNameEntryFirst(o: Obj, key: string, value: string)
    requires key == "form-name" && value == FormName
    requires |o| >= 2 && o[0] == (key, value)
    ensures var body := Encode(EncodeUriComponent, o);
            |body| >= 18 && body[..18] == "form-name=contact&"
  {
    FormNameUnescaped(key, value);
    BodyBeginsWithFirstPair(EncodeUriComponent, o);
    FormNameEntryText(key, value);
  }

  /** The body `onSubmit` builds from any form state begins `form-name=contact&`. */
  lemma BodyPrefix(state: Obj)
    requires IsFormState(state)
    ensures var body := SubmittedBody(state);
            |body| >= 18 && body[..18] == "form-name=contact&"
  {
    SubmittedObjectHead(state);
    FormNameEntryFirst(SubmittedObject(state), "form-name", FormName);
  }
}
