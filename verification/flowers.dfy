/** The `Flower` record of `lab1/data/flower.py` and its comparison methods.

    Flowers compare by name, then colour, then aroma, each with Python's `<`
    on strings; the regions never take part, not even in `==`.  The sorts of
    lab1 run on lists of flowers, so this is the order they sort by.
 */
module Flowers {
  import opened Orders

  datatype Flower = Flower(name: string, color: string, aroma: string, regions: string)

  /** `__lt__`: the first differing field among name, colour and aroma decides. */
  function Less(a: Flower, b: Flower): bool {
    if a.name != b.name then StrLess(a.name, b.name)
    else if a.color != b.color then StrLess(a.color, b.color)
    else StrLess(a.aroma, b.aroma)
  }

  /** `__gt__`: the same walk with `>` on strings. */
  function Greater(a: Flower, b: Flower): bool {
    if a.name != b.name then StrLess(b.name, a.name)
    else if a.color != b.color then StrLess(b.color, a.color)
    else StrLess(b.aroma, a.aroma)
  }

  /** `__eq__`: name, colour and aroma agree. */
  function Equal(a: Flower, b: Flower): bool {
    a.name == b.name && a.color == b.color && a.aroma == b.aroma
  }

  /** `__le__` */
  function AtMost(a: Flower, b: Flower): bool {
    Less(a, b) || Equal(a, b)
  }

  /** `__ge__` */
  function AtLeast(a: Flower, b: Flower): bool {
    Greater(a, b) || Equal(a, b)
  }

  /** `a > b` holds exactly when `b < a`. */
  lemma GreaterIsConverse(a: Flower, b: Flower)
    ensures Greater(a, b) <==> Less(b, a)
  {
  }

  /** Exactly one of `a < b`, `a == b`, `b < a` holds. */
  lemma Trichotomy(a: Flower, b: Flower)
    ensures Less(a, b) || Equal(a, b) || Less(b, a)
    ensures !(Less(a, b) && Less(b, a))
    ensures Equal(a, b) ==> !Less(a, b) && !Less(b, a)
  {
    StrLessTotal(a.name, b.name);
    StrLessTotal(a.color, b.color);
    StrLessTotal(a.aroma, b.aroma);
    StrLessIrreflexive(a.aroma);
    if StrLess(a.name, b.name) && StrLess(b.name, a.name) {
      StrLessTransitive(a.name, b.name, a.name);
      StrLessIrreflexive(a.name);
    }
    if StrLess(a.color, b.color) && StrLess(b.color, a.color) {
      StrLessTransitive(a.color, b.color, a.color);
      StrLessIrreflexive(a.color);
    }
    if StrLess(a.aroma, b.aroma) && StrLess(b.aroma, a.aroma) {
      StrLessTransitive(a.aroma, b.aroma, a.aroma);
    }
  }

  /** `<` on flowers is transitive. */
  lemma LessTransitive(a: Flower, b: Flower, c: Flower)
    requires Less(a, b) && Less(b, c)
    ensures Less(a, c)
  {
    if a.name != b.name && b.name != c.name {
      StrLessTransitive(a.name, b.name, c.name);
      if a.name == c.name {
        StrLessTransitive(a.name, b.name, a.name);
        StrLessIrreflexive(a.name);
      }
    } else if a.name == b.name && b.name == c.name {
      if a.color != b.color && b.color != c.color {
        StrLessTransitive(a.color, b.color, c.color);
        if a.color == c.color {
          StrLessTransitive(a.color, b.color, a.color);
          StrLessIrreflexive(a.color);
        }
      } else if a.color == b.color && b.color == c.color {
        StrLessTransitive(a.aroma, b.aroma, c.aroma);
      }
    }
  }

  /** `<=` is "not greater" and `>=` is "not less". */
  lemma AtMostAtLeast(a: Flower, b: Flower)
    ensures AtMost(a, b) <==> !Less(b, a)
    ensures AtLeast(a, b) <==> !Less(a, b)
  {
    Trichotomy(a, b);
  }

  /** Two flowers that differ only in their regions are equal, and neither
      is less than the other. */
  lemma RegionsIgnored(a: Flower, rs: string)
    ensures Equal(a, a.(regions := rs)) && !Less(a, a.(regions := rs)) && !Less(a.(regions := rs), a)
  {
    StrLessIrreflexive(a.aroma);
  }

  /** The three operators the sorts use, as one lawful order. */
  function FlowerOrd(): (o: Ord<Flower>)
    ensures Lawful(o)
  {
    forall a | true ensures !Less(a, a) { Trichotomy(a, a); }
    forall a, b, c | Less(a, b) && Less(b, c) ensures Less(a, c) { LessTransitive(a, b, c); }
    forall a, b, c | !Less(a, b) && !Less(b, c) ensures !Less(a, c) {
      Trichotomy(a, b);
      Trichotomy(b, c);
      Trichotomy(a, c);
      if Less(c, b) && Less(b, a) { LessTransitive(c, b, a); }
    }
    forall a, b ensures Equal(a, b) <==> !Less(a, b) && !Less(b, a) { Trichotomy(a, b); }
    forall a, b ensures Greater(a, b) <==> Less(b, a) { GreaterIsConverse(a, b); }
    Ord(Less, Equal, Greater)
  }
}
