/** `_clean_text`: the named cleaners of the `cleaners` module, applied in order. */
module Cleaning {
  import opened Wrappers

  /** The cleaners, by name. Each is a total function on strings; what they do is
      not part of this model. A name that is absent is one `getattr` cannot resolve
      to a cleaner. */
  type Registry = map<string, string -> string>

  /** Applying `names` in order to `text`, each cleaner's output feeding the next;
      the first name without a cleaner stops everything with an error. */
  function Cleaned(text: string, names: seq<string>, registry: Registry): (r: Result<string>)
    ensures r.Err? <==> exists k :: 0 <= k < |names| && names[k] !in registry
    ensures r.Err? ==> exists k :: 0 <= k < |names| && names[k] !in registry
                                   && r.error == UnknownCleaner(names[k])
                                   && forall j :: 0 <= j < k ==> names[j] in registry
    ensures |names| == 0 ==> r == Ok(text)
    decreases |names|
  {
    if |names| == 0 then Ok(text)
    else if names[0] !in registry then Err(UnknownCleaner(names[0]))
    else
      var r := Cleaned(registry[names[0]](text), names[1..], registry);
      assert forall k :: 1 <= k < |names| ==> names[k] == names[1..][k - 1];
      r
  }

  /** `_clean_text(text, cleaner_names)`: a loop that rebinds `text` to each cleaner's
      output in turn. */
  method CleanText(text: string, names: seq<string>, registry: Registry) returns (r: Result<string>)
    ensures r == Cleaned(text, names, registry)
  {
    var current := text;
    for i := 0 to |names|
      invariant Cleaned(text, names, registry) == Cleaned(current, names[i..], registry)
    {
      var name := names[i];
      assert names[i..][1..] == names[i + 1..];
      if name !in registry {
        return Err(UnknownCleaner(name));
      }
      current := registry[name](current);
    }
    return Ok(current);
  }

  /** Cleaning with `a + b` is cleaning with `a`, then with `b`. */
  lemma {:induction false} CleanedAppend(text: string, a: seq<string>, b: seq<string>, registry: Registry)
    ensures Cleaned(text, a + b, registry)
            == match Cleaned(text, a, registry)
               case Ok(t) => Cleaned(t, b, registry)
               case Err(e) => Err(e)
    decreases |a|
  {
    if a == [] {
      assert a + b == b;
    } else {
      assert (a + b)[0] == a[0];
      assert (a + b)[1..] == a[1..] + b;
      if a[0] in registry {
        CleanedAppend(registry[a[0]](text), a[1..], b, registry);
      }
    }
  }

  /** One name: its cleaner applied once, or the Unknown-cleaner error. */
  lemma CleanedOne(text: string, name: string, registry: Registry)
    ensures Cleaned(text, [name], registry)
            == if name in registry then Ok(registry[name](text)) else Err(UnknownCleaner(name))
  {
  }
}
