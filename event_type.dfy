/** Event classification: the keyword tests that give every sheet cell one
    of five event types. */
module EventType {
  import opened Common

  datatype Kind = Food | Transport | Hotel | Shopping | Sightseeing

  const FoodWords: seq<string> := ["食", "餐", "牛舌", "拉麵"]
  const TransportWords: seq<string> := ["機", "鐵", "車", "移動"]
  const HotelWords: seq<string> := ["住", "飯店", "check-in"]
  const ShoppingWords: seq<string> := ["買", "逛"]

  /** Some keyword of `words` occurs in `t`. */
  predicate HasAny(t: string, words: seq<string>) {
    exists w :: w in words && Contains(t, w)
  }

  /** inferType: the text is lower-cased, then the keyword groups are
      tried in the order food, transport, hotel, shopping; the first group
      with a keyword in the text decides, and a text with no keyword is
      sightseeing. */
  function InferType(content: string): (r: Kind)
    ensures r == Food <==> HasAny(Lower(content), FoodWords)
    ensures r == Transport <==> !HasAny(Lower(content), FoodWords) && HasAny(Lower(content), TransportWords)
    ensures r == Hotel <==>
      !HasAny(Lower(content), FoodWords) && !HasAny(Lower(content), TransportWords) && HasAny(Lower(content), HotelWords)
    ensures r == Shopping <==>
      !HasAny(Lower(content), FoodWords) && !HasAny(Lower(content), TransportWords)
      && !HasAny(Lower(content), HotelWords) && HasAny(Lower(content), ShoppingWords)
  {
    var lower := Lower(content);
    if Contains(lower, "食") || Contains(lower, "餐") || Contains(lower, "牛舌") || Contains(lower, "拉麵") then
      Food
    else if Contains(lower, "機") || Contains(lower, "鐵") || Contains(lower, "車") || Contains(lower, "移動") then
      Transport
    else if Contains(lower, "住") || Contains(lower, "飯店") || Contains(lower, "check-in") then
      Hotel
    else if Contains(lower, "買") || Contains(lower, "逛") then
      Shopping
    else
      Sightseeing
  }

  /** A text is sightseeing exactly when it holds no keyword of any group. */
  lemma {:induction false} SightseeingIffNoKeyword(content: string)
    ensures InferType(content) == Sightseeing <==>
      forall words :: words in [FoodWords, TransportWords, HotelWords, ShoppingWords] ==> !HasAny(Lower(content), words)
  {
    var all := [FoodWords, TransportWords, HotelWords, ShoppingWords];
    assert all[0] == FoodWords && all[1] == TransportWords && all[2] == HotelWords && all[3] == ShoppingWords;
  }

  /** No character of `w` changes when lower-cased. */
  predicate NoUpper(w: string) {
    forall i :: 0 <= i < |w| ==> LowerChar(w[i]) == w[i]
  }

  /** A keyword without capital letters survives lower-casing of the text
      around it. */
  lemma {:induction false} LowerKeepsWord(t: string, w: string, k: int)
    requires NoUpper(w) && HasAt(t, w, k)
    ensures HasAt(Lower(t), w, k)
  {
    var a := Lower(t)[k..k + |w|];
    forall i | 0 <= i < |w| ensures a[i] == w[i] {
      assert t[k + i] == t[k..k + |w|][i];
    }
  }

  lemma {:induction false} LowerKeepsAny(t: string, words: seq<string>)
    requires forall w :: w in words ==> NoUpper(w)
    ensures HasAny(t, words) ==> HasAny(Lower(t), words)
  {
    if HasAny(t, words) {
      var w :| w in words && Contains(t, w);
      var k :| 0 <= k <= |t| - |w| && HasAt(t, w, k);
      LowerKeepsWord(t, w, k);
      assert Contains(Lower(t), w);
    }
  }

  /** A food keyword wins over every later group, whatever else the text
      holds: a cell naming both a meal and a train is food. */
  lemma {:induction false} FoodWins(content: string, w: string)
    requires w in FoodWords && Contains(content, w)
    ensures InferType(content) == Food
  {
    assert NoUpper(FoodWords[0]) && NoUpper(FoodWords[1]) && NoUpper(FoodWords[2]) && NoUpper(FoodWords[3]);
    LowerKeepsAny(content, FoodWords);
  }

  /** Lower-casing twice is lower-casing once. */
  lemma {:induction false} LowerIdempotent(t: string)
    ensures Lower(Lower(t)) == Lower(t)
  {
    var a, b := Lower(Lower(t)), Lower(t);
    forall i | 0 <= i < |t| ensures a[i] == b[i] {
      LowerCharIdempotent(t[i]);
    }
  }

  /** The classification ignores letter case. */
  lemma {:induction false} InferTypeCaseInsensitive(content: string)
    ensures InferType(Lower(content)) == InferType(content)
  {
    LowerIdempotent(content);
  }

  /** "CHECK-IN" is the hotel keyword once lower-cased. */
  lemma {:induction false} UpperCheckInIsHotel()
    ensures InferType("CHECK-IN") == Hotel
  {
    var t := "CHECK-IN";
    var l := Lower(t);
    assert l == "check-in";
    assert HasAt(l, "check-in", 0);
    forall w | w in FoodWords + TransportWords ensures !Contains(l, w) {
      forall k | 0 <= k <= |l| - |w| ensures !HasAt(l, w, k) {
        assert l[k] != w[0];
      }
    }
    assert FoodWords[0] in FoodWords + TransportWords;
  }
}
