/** What the client keeps for each processed image: the endpoint's JSON body
    as received, and removal of entries by name. */
module Results {
  import opened Common
  import OptimizeRoute

  /** One entry of the client's result list. The size fields are optional
      because the client reads them from JSON and guards them with `|| 0`. */
  datatype Processed = Processed(fileName: string, processedImage: string, originalSize: Option<nat>, newSize: Option<nat>)

  function ResultName(p: Processed): string {
    p.fileName
  }

  /** The result record the client stores for a successful answer. */
  function FromBody(body: OptimizeRoute.Body): (p: Processed)
    ensures ResultName(p) == body.fileName && p.processedImage == body.processedImage
    ensures p.originalSize == Some(body.originalSize) && p.newSize == Some(body.newSize)
  {
    Processed(body.fileName, body.processedImage, Some(body.originalSize), Some(body.newSize))
  }

  /** `xs.filter(x => nameOf(x) !== name)`: drop every element carrying `name`. */
  function WithoutName<T>(xs: seq<T>, nameOf: T -> string, name: string): (r: seq<T>)
    ensures |r| <= |xs|
    ensures forall i :: 0 <= i < |r| ==> nameOf(r[i]) != name && r[i] in xs
    ensures forall i :: 0 <= i < |xs| && nameOf(xs[i]) != name ==> xs[i] in r
  {
    if |xs| == 0 then []
    else
      var rest := WithoutName(xs[1..], nameOf, name);
      assert forall i :: 1 <= i < |xs| ==> xs[i] == xs[1..][i - 1];
      if nameOf(xs[0]) == name then rest else [xs[0]] + rest
  }

  /** How many elements carry `name`. */
  function CountName<T>(xs: seq<T>, nameOf: T -> string, name: string): (n: nat)
    ensures n <= |xs|
  {
    if |xs| == 0 then 0
    else (if nameOf(xs[0]) == name then 1 else 0) + CountName(xs[1..], nameOf, name)
  }

  /** Removal deletes exactly the elements carrying the name. */
  lemma {:induction false} WithoutNameLength<T>(xs: seq<T>, nameOf: T -> string, name: string)
    ensures |WithoutName(xs, nameOf, name)| == |xs| - CountName(xs, nameOf, name)
    decreases |xs|
  {
    if |xs| > 0 {
      WithoutNameLength(xs[1..], nameOf, name);
    }
  }

  /** Removal keeps the survivors in their original order: it distributes
      over concatenation. */
  lemma {:induction false} WithoutNameAppend<T>(a: seq<T>, b: seq<T>, nameOf: T -> string, name: string)
    ensures WithoutName(a + b, nameOf, name) == WithoutName(a, nameOf, name) + WithoutName(b, nameOf, name)
    decreases |a|
  {
    if |a| > 0 {
      assert (a + b)[1..] == a[1..] + b;
      WithoutNameAppend(a[1..], b, nameOf, name);
    } else {
      assert a + b == b;
    }
  }

  lemma {:induction false} CountNameAppend<T>(a: seq<T>, b: seq<T>, nameOf: T -> string, name: string)
    ensures CountName(a + b, nameOf, name) == CountName(a, nameOf, name) + CountName(b, nameOf, name)
    decreases |a|
  {
    if |a| > 0 {
      assert (a + b)[1..] == a[1..] + b;
      CountNameAppend(a[1..], b, nameOf, name);
    } else {
      assert a + b == b;
    }
  }

  /** When exactly one element carries the name, removal takes out that one
      element and leaves the others in place. */
  lemma WithoutUniqueName<T>(xs: seq<T>, nameOf: T -> string, name: string, k: int)
    requires 0 <= k < |xs| && nameOf(xs[k]) == name
    requires CountName(xs, nameOf, name) == 1
    ensures WithoutName(xs, nameOf, name) == xs[..k] + xs[k + 1..]
  {
    var a, x, b := xs[..k], [xs[k]], xs[k + 1..];
    assert xs == a + x + b;
    UniqueNameSplit(a, x, b, nameOf, name);
    WithoutAbsentName(a, nameOf, name);
    WithoutAbsentName(b, nameOf, name);
    WithoutNameAppend(a + x, b, nameOf, name);
    WithoutNameAppend(a, x, nameOf, name);
    assert WithoutName(a + x, nameOf, name) == a + [];
  }

  lemma UniqueNameSplit<T>(a: seq<T>, x: seq<T>, b: seq<T>, nameOf: T -> string, name: string)
    requires |x| == 1 && nameOf(x[0]) == name
    requires CountName(a + x + b, nameOf, name) == 1
    ensures CountName(a, nameOf, name) == 0 && CountName(b, nameOf, name) == 0
    ensures WithoutName(x, nameOf, name) == []
  {
    assert x[1..] == [];
    CountNameAppend(a + x, b, nameOf, name);
    CountNameAppend(a, x, nameOf, name);
  }

  /** Removing a name nobody carries changes nothing. */
  lemma {:induction false} WithoutAbsentName<T>(xs: seq<T>, nameOf: T -> string, name: string)
    requires CountName(xs, nameOf, name) == 0
    ensures WithoutName(xs, nameOf, name) == xs
    decreases |xs|
  {
    if |xs| > 0 {
      WithoutAbsentName(xs[1..], nameOf, name);
      assert xs == [xs[0]] + xs[1..];
    }
  }

  /** Removing twice is removing once. */
  lemma WithoutNameIdempotent<T>(xs: seq<T>, nameOf: T -> string, name: string)
    ensures WithoutName(WithoutName(xs, nameOf, name), nameOf, name) == WithoutName(xs, nameOf, name)
  {
    var r := WithoutName(xs, nameOf, name);
    CountNameZero(r, nameOf, name);
    WithoutAbsentName(r, nameOf, name);
  }

  lemma {:induction false} CountNameZero<T>(xs: seq<T>, nameOf: T -> string, name: string)
    requires forall i :: 0 <= i < |xs| ==> nameOf(xs[i]) != name
    ensures CountName(xs, nameOf, name) == 0
    decreases |xs|
  {
    if |xs| > 0 {
      assert forall i :: 1 <= i < |xs| ==> xs[i] == xs[1..][i - 1];
      CountNameZero(xs[1..], nameOf, name);
    }
  }

}
