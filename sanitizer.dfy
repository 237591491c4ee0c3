/**
 * The `clean` walk of `xssSanitizeAll`: a `for..in` loop over the keys of
 * a request object that replaces every string property `s` with `xss(s)`
 * and recurses, in place, into every property holding another non-null
 * object (arrays included, their keys being the indices). `xss` is a
 * library function and is a parameter here.
 *
 * The objects of a request are numbered; a property holding an object
 * holds its number. A parsed body, query or params object is a tree: no
 * object is held by two properties and none holds itself, directly or
 * not. `WellFormed` states that, with the objects numbered so that a child
 * always has a larger number than its parent.
 */
module Sanitizer {

  /** A property value as `clean` tells them apart: a string, an object (by number), or a value it leaves alone. */
  datatype Val = Str(s: string) | Ref(obj: nat) | Num(n: real) | Bool(b: bool) | Null

  datatype Field = Field(key: string, value: Val)

  type Objects = seq<seq<Field>>

  /** References point forward to existing objects, and no object is referenced twice. */
  predicate WellFormed(h: Objects)
  {
    (forall p, k :: 0 <= p < |h| && 0 <= k < |h[p]| && h[p][k].value.Ref? ==> p < h[p][k].value.obj < |h|)
    && (forall p, k, q, j ::
          0 <= p < |h| && 0 <= k < |h[p]| && 0 <= q < |h| && 0 <= j < |h[q]|
          && h[p][k].value.Ref? && h[p][k].value == h[q][j].value
          ==> p == q && k == j)
  }

  /** Two properties agree except, possibly, on the text of a string value. */
  predicate SameSlot(a: Field, b: Field)
  {
    a.key == b.key && (a.value.Str? <==> b.value.Str?) && (!a.value.Str? ==> a.value == b.value)
  }

  /** Two sets of objects with the same keys, the same references and the same non-string values. */
  predicate SameShape(h1: Objects, h2: Objects)
  {
    |h1| == |h2|
    && forall p :: 0 <= p < |h1| ==>
         |h1[p]| == |h2[p]| && forall k :: 0 <= k < |h1[p]| ==> SameSlot(h1[p][k], h2[p][k])
  }

  /** The objects `clean(c)` visits: c and, recursively, those its properties hold. */
  function Sub(h: Objects, c: nat): (r: set<nat>)
    requires WellFormed(h) && c < |h|
    ensures c in r && forall p :: p in r ==> c <= p < |h|
    decreases |h| - c, |h[c]| + 1
  {
    {c} + Below(h, c, |h[c]|)
  }

  /** The objects reached through the first i properties of object c. */
  function Below(h: Objects, c: nat, i: nat): (r: set<nat>)
    requires WellFormed(h) && c < |h| && i <= |h[c]|
    ensures forall p :: p in r ==> c < p < |h|
    decreases |h| - c, i
  {
    if i == 0 then {}
    else Below(h, c, i - 1) + (if h[c][i - 1].value.Ref? then Sub(h, h[c][i - 1].value.obj) else {})
  }

  /** One property after `clean`: a string is passed through xss; anything else is kept. */
  function CleanSlot(f: Field, xss: string -> string): (r: Field)
    ensures SameSlot(f, r)
    ensures f.value.Str? ==> r.value == Str(xss(f.value.s))
    ensures !f.value.Str? ==> r == f
  {
    if f.value.Str? then Field(f.key, Str(xss(f.value.s))) else f
  }

  function CleanFields(fs: seq<Field>, xss: string -> string): (r: seq<Field>)
    ensures |r| == |fs| && forall k :: 0 <= k < |fs| ==> r[k] == CleanSlot(fs[k], xss)
  {
    seq(|fs|, k requires 0 <= k < |fs| => CleanSlot(fs[k], xss))
  }

  /** The objects after cleaning each object of `visited` once. */
  function CleanObjects(h: Objects, visited: set<nat>, xss: string -> string): (r: Objects)
    ensures SameShape(h, r)
    ensures forall p :: 0 <= p < |h| ==> r[p] == if p in visited then CleanFields(h[p], xss) else h[p]
  {
    seq(|h|, p requires 0 <= p < |h| => if p in visited then CleanFields(h[p], xss) else h[p])
  }

  /* ---------------------------------------------------------------- */
  /* What the visited set is                                            */
  /* ---------------------------------------------------------------- */

  lemma {:induction false} BelowMono(h: Objects, c: nat, i: nat, j: nat)
    requires WellFormed(h) && c < |h| && i <= j <= |h[c]|
    ensures Below(h, c, i) <= Below(h, c, j)
    decreases j - i
  {
    if i < j {
      BelowMono(h, c, i, j - 1);
    }
  }

  /** The visited set is closed: an object held by a visited object is visited. */
  lemma {:induction false} SubClosed(h: Objects, c: nat, p: nat, k: nat)
    requires WellFormed(h) && c < |h| && p in Sub(h, c)
    requires k < |h[p]| && h[p][k].value.Ref?
    ensures h[p][k].value.obj in Sub(h, c)
    decreases |h| - c, |h[c]| + 1
  {
    if p == c {
      BelowMono(h, c, k + 1, |h[c]|);
    } else {
      BelowClosed(h, c, |h[c]|, p, k);
    }
  }

  lemma {:induction false} BelowClosed(h: Objects, c: nat, i: nat, p: nat, k: nat)
    requires WellFormed(h) && c < |h| && i <= |h[c]| && p in Below(h, c, i)
    requires k < |h[p]| && h[p][k].value.Ref?
    ensures h[p][k].value.obj in Below(h, c, i)
    decreases |h| - c, i
  {
    if p in Below(h, c, i - 1) {
      BelowClosed(h, c, i - 1, p, k);
    } else {
      SubClosed(h, h[c][i - 1].value.obj, p, k);
    }
  }

  /** The visited set is the least such: every visited object but the first is held by a visited object. */
  lemma {:induction false} SubParent(h: Objects, c: nat, p: nat) returns (q: nat, k: nat)
    requires WellFormed(h) && c < |h| && p in Sub(h, c) && p != c
    ensures q in Sub(h, c) && q < |h| && k < |h[q]| && h[q][k].value == Ref(p)
    decreases |h| - c, |h[c]| + 1
  {
    q, k := BelowParent(h, c, |h[c]|, p);
  }

  lemma {:induction false} BelowParent(h: Objects, c: nat, i: nat, p: nat) returns (q: nat, k: nat)
    requires WellFormed(h) && c < |h| && i <= |h[c]| && p in Below(h, c, i)
    ensures (q == c || q in Below(h, c, i)) && q < |h| && k < |h[q]| && h[q][k].value == Ref(p)
    decreases |h| - c, i
  {
    if p in Below(h, c, i - 1) {
      q, k := BelowParent(h, c, i - 1, p);
      BelowMono(h, c, i - 1, i);
    } else {
      var child := h[c][i - 1].value.obj;
      if p == child {
        q, k := c, i - 1;
      } else {
        q, k := SubParent(h, child, p);
      }
    }
  }

  /** Two objects neither of which is visited from the other share no visited object. */
  lemma {:induction false} SubsDisjoint(h: Objects, a: nat, b: nat, p: nat)
    requires WellFormed(h) && a < |h| && b < |h|
    requires a !in Sub(h, b) && b !in Sub(h, a)
    ensures !(p in Sub(h, a) && p in Sub(h, b))
    decreases p
  {
    if p in Sub(h, a) && p in Sub(h, b) {
      var q1, k1 := SubParent(h, a, p);
      var q2, k2 := SubParent(h, b, p);
      SubsDisjoint(h, a, b, q1);
      assert false;
    }
  }

  /** Two properties of one object hold objects whose visited sets do not meet. */
  lemma SiblingsDisjoint(h: Objects, o: nat, i: nat, j: nat, p: nat)
    requires WellFormed(h) && o < |h| && i < |h[o]| && j < |h[o]| && i != j
    requires h[o][i].value.Ref? && h[o][j].value.Ref?
    ensures !(p in Sub(h, h[o][i].value.obj) && p in Sub(h, h[o][j].value.obj))
  {
    var a, b := h[o][i].value.obj, h[o][j].value.obj;
    if a in Sub(h, b) {
      var q, k := SubParent(h, b, a);
      assert false;
    }
    if b in Sub(h, a) {
      var q, k := SubParent(h, a, b);
      assert false;
    }
    SubsDisjoint(h, a, b, p);
  }

  /** What the first i properties of o reach is disjoint from what a later property j reaches. */
  lemma {:induction false} BelowDisjoint(h: Objects, o: nat, i: nat, j: nat, p: nat)
    requires WellFormed(h) && o < |h| && i <= j < |h[o]| && h[o][j].value.Ref?
    requires p in Sub(h, h[o][j].value.obj)
    ensures p !in Below(h, o, i)
    decreases i
  {
    if i > 0 {
      BelowDisjoint(h, o, i - 1, j, p);
      if h[o][i - 1].value.Ref? {
        SiblingsDisjoint(h, o, j, i - 1, p);
      }
    }
  }

  /**
   * The state of `clean(o)` after its loop has handled the first i
   * properties of o (h0 being the objects when the call began): those
   * properties are cleaned, the objects they reach are cleaned, and
   * nothing else has changed.
   */
  ghost predicate Progress(h0: Objects, cur: Objects, o: nat, i: nat, xss: string -> string)
  {
    WellFormed(h0) && o < |h0| && i <= |h0[o]|
    && SameShape(h0, cur)
    && (forall p :: 0 <= p < |h0| && p != o ==>
          cur[p] == if p in Below(h0, o, i) then CleanFields(h0[p], xss) else h0[p])
    && (forall k :: 0 <= k < |h0[o]| ==>
          cur[o][k] == if k < i then CleanSlot(h0[o][k], xss) else h0[o][k])
  }

  lemma ProgressStart(h0: Objects, o: nat, xss: string -> string)
    requires WellFormed(h0) && o < |h0|
    ensures Progress(h0, h0, o, 0, xss)
  {
  }

  /** Property i of o holds a string: it is replaced by its xss image. */
  lemma ProgressString(h0: Objects, cur: Objects, o: nat, i: nat, xss: string -> string)
    requires Progress(h0, cur, o, i, xss) && i < |h0[o]| && cur[o][i].value.Str?
    ensures Progress(h0, cur[o := cur[o][i := Field(cur[o][i].key, Str(xss(cur[o][i].value.s)))]], o, i + 1, xss)
  {
    var next := cur[o := cur[o][i := Field(cur[o][i].key, Str(xss(cur[o][i].value.s)))]];
    assert SameShape(cur, next);
    ShapeTrans(h0, cur, next);
  }

  /** Property i of o holds neither a string nor an object: nothing changes. */
  lemma ProgressOther(h0: Objects, cur: Objects, o: nat, i: nat, xss: string -> string)
    requires Progress(h0, cur, o, i, xss) && i < |h0[o]| && !cur[o][i].value.Str? && !cur[o][i].value.Ref?
    ensures Progress(h0, cur, o, i + 1, xss)
  {
  }

  /**
   * Property i of o holds object c: cleaning c cleans exactly the objects
   * property i reaches, which the earlier properties did not reach, and
   * leaves o alone.
   */
  lemma ProgressChild(h0: Objects, cur: Objects, after: Objects, o: nat, i: nat, xss: string -> string)
    requires Progress(h0, cur, o, i, xss) && i < |h0[o]| && cur[o][i].value.Ref?
    requires after == CleanObjects(cur, Sub(cur, cur[o][i].value.obj), xss)
    ensures Progress(h0, after, o, i + 1, xss)
  {
    var c := cur[o][i].value.obj;
    assert SameSlot(h0[o][i], cur[o][i]);
    ShapeKeepsWellFormed(h0, cur);
    SubSame(h0, cur, c);
    ChildStep(h0, cur, after, o, i, xss);
    ShapeTrans(h0, cur, after);
  }

  lemma ChildStep(h0: Objects, cur: Objects, after: Objects, o: nat, i: nat, xss: string -> string)
    requires WellFormed(h0) && o < |h0| && i < |h0[o]| && h0[o][i].value.Ref? && |cur| == |h0|
    requires forall p :: 0 <= p < |h0| && p != o ==>
               cur[p] == if p in Below(h0, o, i) then CleanFields(h0[p], xss) else h0[p]
    requires after == CleanObjects(cur, Sub(h0, h0[o][i].value.obj), xss)
    ensures after[o] == cur[o]
    ensures forall p :: 0 <= p < |h0| && p != o ==>
              after[p] == if p in Below(h0, o, i + 1) then CleanFields(h0[p], xss) else h0[p]
  {
    var c := h0[o][i].value.obj;
    forall p | 0 <= p < |h0| && p != o
      ensures after[p] == if p in Below(h0, o, i + 1) then CleanFields(h0[p], xss) else h0[p]
    {
      if p in Sub(h0, c) {
        BelowDisjoint(h0, o, i, i, p);
      }
    }
  }

  /** Once every property of o is handled, the objects are those `CleanObjects` gives for the objects o reaches. */
  lemma ProgressDone(h0: Objects, cur: Objects, o: nat, xss: string -> string)
    requires o < |h0| && Progress(h0, cur, o, |h0[o]|, xss)
    ensures cur == CleanObjects(h0, Sub(h0, o), xss)
  {
    var r := CleanObjects(h0, Sub(h0, o), xss);
    assert cur[o] == r[o];
    forall p | 0 <= p < |h0| ensures cur[p] == r[p] {
    }
  }

  /** Cleaning changes only string texts, so it keeps the objects well formed and visits the same objects. */
  lemma ShapeKeepsWellFormed(h1: Objects, h2: Objects)
    requires WellFormed(h1) && SameShape(h1, h2)
    ensures WellFormed(h2)
  {
    forall p, k | 0 <= p < |h2| && 0 <= k < |h2[p]| && h2[p][k].value.Ref?
      ensures p < h2[p][k].value.obj < |h2|
    {
      assert SameSlot(h1[p][k], h2[p][k]);
    }
    forall p, k, q, j | 0 <= p < |h2| && 0 <= k < |h2[p]| && 0 <= q < |h2| && 0 <= j < |h2[q]|
        && h2[p][k].value.Ref? && h2[p][k].value == h2[q][j].value
      ensures p == q && k == j
    {
      assert SameSlot(h1[p][k], h2[p][k]) && SameSlot(h1[q][j], h2[q][j]);
    }
  }

  lemma {:induction false} SubSame(h1: Objects, h2: Objects, c: nat)
    requires WellFormed(h1) && WellFormed(h2) && SameShape(h1, h2) && c < |h1|
    ensures Sub(h1, c) == Sub(h2, c)
    decreases |h1| - c, |h1[c]| + 1
  {
    BelowSame(h1, h2, c, |h1[c]|);
  }

  lemma {:induction false} BelowSame(h1: Objects, h2: Objects, c: nat, i: nat)
    requires WellFormed(h1) && WellFormed(h2) && SameShape(h1, h2) && c < |h1| && i <= |h1[c]|
    ensures Below(h1, c, i) == Below(h2, c, i)
    decreases |h1| - c, i
  {
    if i > 0 {
      BelowSame(h1, h2, c, i - 1);
      assert SameSlot(h1[c][i - 1], h2[c][i - 1]);
      if h1[c][i - 1].value.Ref? {
        SubSame(h1, h2, h1[c][i - 1].value.obj);
      }
    }
  }

  lemma ShapeTrans(h1: Objects, h2: Objects, h3: Objects)
    requires SameShape(h1, h2) && SameShape(h2, h3)
    ensures SameShape(h1, h3)
  {
  }

  /* ---------------------------------------------------------------- */
  /* Properties of the result                                           */
  /* ---------------------------------------------------------------- */

  /** With an xss that returns its input, cleaning changes nothing. */
  lemma CleanIdentity(h: Objects, visited: set<nat>, xss: string -> string)
    requires forall s :: xss(s) == s
    ensures CleanObjects(h, visited, xss) == h
  {
    var r := CleanObjects(h, visited, xss);
    forall p | 0 <= p < |h| ensures r[p] == h[p] {
      if p in visited {
        assert r[p] == CleanFields(h[p], xss);
        forall k | 0 <= k < |h[p]| ensures r[p][k] == h[p][k] {
          assert CleanSlot(h[p][k], xss) == h[p][k];
        }
      }
    }
  }

  /** Cleaning with f and then with g is cleaning once with their composition. */
  lemma CleanCompose(h: Objects, visited: set<nat>, f: string -> string, g: string -> string)
    ensures CleanObjects(CleanObjects(h, visited, f), visited, g) == CleanObjects(h, visited, s => g(f(s)))
  {
    var r1 := CleanObjects(CleanObjects(h, visited, f), visited, g);
    var r2 := CleanObjects(h, visited, s => g(f(s)));
    forall p | 0 <= p < |h| ensures r1[p] == r2[p] {
      if p in visited {
        forall k | 0 <= k < |h[p]| ensures r1[p][k] == r2[p][k] {
          assert CleanSlot(CleanSlot(h[p][k], f), g) == CleanSlot(h[p][k], s => g(f(s)));
        }
      }
    }
  }

  /** When xss is idempotent, so is cleaning: a second pass over the same objects changes nothing. */
  lemma CleanIdempotent(h: Objects, visited: set<nat>, xss: string -> string)
    requires forall s :: xss(xss(s)) == xss(s)
    ensures CleanObjects(CleanObjects(h, visited, xss), visited, xss) == CleanObjects(h, visited, xss)
  {
    CleanCompose(h, visited, xss, xss);
    var r1 := CleanObjects(h, visited, s => xss(xss(s)));
    var r2 := CleanObjects(h, visited, xss);
    forall p | 0 <= p < |h| ensures r1[p] == r2[p] {
      if p in visited {
        forall k | 0 <= k < |h[p]| ensures r1[p][k] == r2[p][k] {
          assert CleanSlot(h[p][k], s => xss(xss(s))) == CleanSlot(h[p][k], xss);
        }
      }
    }
  }

  /** The request's objects, which `clean` rewrites in place. */
  class Request {
    var objects: Objects

    ghost predicate Valid()
      reads this
    {
      WellFormed(objects)
    }

    constructor(initial: Objects)
      requires WellFormed(initial)
      ensures Valid() && objects == initial
    {
      objects := initial;
    }

    /**
     * `clean(obj)` for object o: every string property of o and of every
     * object reached from it is replaced by its xss image, each exactly
     * once; keys, references, other values and every object not reached
     * are unchanged.
     */
    method Clean(o: nat, xss: string -> string)
      requires Valid() && o < |objects|
      modifies this
      ensures Valid()
      ensures objects == CleanObjects(old(objects), Sub(old(objects), o), xss)
      decreases |objects| - o, 1
    {
      ghost var h0 := objects;
      ProgressStart(h0, o, xss);
      var i := 0;
      while i < |objects[o]|
        invariant Progress(h0, objects, o, i, xss)
      {
        CleanProperty(h0, o, i, xss);
        i := i + 1;
      }
      ProgressDone(h0, objects, o, xss);
      ShapeKeepsWellFormed(h0, objects);
    }

    /**
     * One turn of the `for...in` over o: a string property takes its xss
     * image, an object property is cleaned recursively, any other value is
     * left alone.
     */
    method CleanProperty(ghost h0: Objects, o: nat, i: nat, xss: string -> string)
      requires Progress(h0, objects, o, i, xss) && i < |h0[o]|
      modifies this
      ensures Progress(h0, objects, o, i + 1, xss)
      decreases |objects| - o, 0
    {
      var f := objects[o][i];
      if f.value.Str? {
        ProgressString(h0, objects, o, i, xss);
        objects := objects[o := objects[o][i := Field(f.key, Str(xss(f.value.s)))]];
      } else if f.value.Ref? {
        ghost var before := objects;
        ShapeKeepsWellFormed(h0, objects);
        Clean(f.value.obj, xss);
        ProgressChild(h0, before, objects, o, i, xss);
      } else {
        ProgressOther(h0, objects, o, i, xss);
      }
    }
  }
}
