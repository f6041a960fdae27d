/**
 * The two string-backed enumerations of the package: a comment's moderation
 * status and a reaction's type, with their value, label and emoji tables and
 * the `toArray()` map that combines values with labels.
 */
module Enums {
  import opened Wrappers

  /**
   * PHP's `array_combine(keys, values)`: the i-th key maps to the i-th value;
   * a key that occurs twice keeps the value given last.
   */
  function Combine(keys: seq<string>, values: seq<string>): (m: map<string, string>)
    requires |keys| == |values|
    ensures m.Keys == set k | k in keys
  {
    if keys == [] then map[]
    else
      var n := |keys| - 1;
      Combine(keys[..n], values[..n])[keys[n] := values[n]]
  }

  ghost predicate Distinct(keys: seq<string>)
  {
    forall i, j :: 0 <= i < j < |keys| ==> keys[i] != keys[j]
  }

  /** With distinct keys `array_combine` loses no entry. */
  lemma {:induction false} CombineDistinct(keys: seq<string>, values: seq<string>)
    requires |keys| == |values| && Distinct(keys)
    ensures |Combine(keys, values)| == |keys|
    ensures forall i :: 0 <= i < |keys| ==> Combine(keys, values)[keys[i]] == values[i]
  {
    if keys != [] {
      var n := |keys| - 1;
      CombineDistinct(keys[..n], values[..n]);
      var m := Combine(keys[..n], values[..n]);
      assert keys[n] !in m.Keys by {
        forall k | k in keys[..n] ensures k != keys[n] { }
      }
      assert |m[keys[n] := values[n]]| == |m| + 1;
      forall i | 0 <= i < |keys| ensures Combine(keys, values)[keys[i]] == values[i] {
        if i < n {
          assert keys[..n][i] == keys[i];
        }
      }
    }
  }

  // ---------------------------------------------------------------------------
  // CommentStatusType

  datatype CommentStatus = Pending | Approved | Spam
  {
    /** The backing value stored in the `status` column. */
    function Value(): (v: string)
    {
      match this
      case Pending => "pending"
      case Approved => "approved"
      case Spam => "spam"
    }

    function Label(): (l: string)
      ensures |l| == |Value()| > 0 && l[1..] == Value()[1..]
      ensures l[0] as int == Value()[0] as int - 32
    {
      match this
      case Pending => "Pending"
      case Approved => "Approved"
      case Spam => "Spam"
    }
  }

  /** `CommentStatusType::tryFrom`: the case whose backing value is `v`. */
  function StatusFromValue(v: string): (r: Option<CommentStatus>)
    ensures r.Some? ==> r.value.Value() == v
    ensures forall s: CommentStatus :: s.Value() == v ==> r == Some(s)
  {
    if v == "pending" then Some(Pending)
    else if v == "approved" then Some(Approved)
    else if v == "spam" then Some(Spam)
    else None
  }

  /** `CommentStatusType::all()`: the cases in declaration order. */
  function AllStatuses(): (r: seq<CommentStatus>)
    ensures |r| == 3
    ensures r[0] == Pending && r[1] == Approved && r[2] == Spam
  {
    [Pending, Approved, Spam]
  }

  /** `all()` lists every case. */
  lemma AllStatusesComplete(s: CommentStatus)
    ensures s in AllStatuses()
  {
    var r := AllStatuses();
    match s
    case Pending => assert r[0] == s;
    case Approved => assert r[1] == s;
    case Spam => assert r[2] == s;
  }

  function StatusValues(ss: seq<CommentStatus>): seq<string>
  {
    seq(|ss|, i requires 0 <= i < |ss| => ss[i].Value())
  }

  function StatusLabels(ss: seq<CommentStatus>): seq<string>
  {
    seq(|ss|, i requires 0 <= i < |ss| => ss[i].Label())
  }

  /** `CommentStatusType::toArray()`: every value mapped to its label. */
  function StatusToArray(): (m: map<string, string>)
    ensures forall s: CommentStatus :: s.Value() in m
  {
    var values := StatusValues(AllStatuses());
    assert values[0] == Pending.Value() && values[1] == Approved.Value() && values[2] == Spam.Value();
    Combine(values, StatusLabels(AllStatuses()))
  }

  /** Each backing value maps to its label, and there are no other keys. */
  lemma StatusToArrayEntries()
    ensures |StatusToArray()| == 3
    ensures forall s: CommentStatus :: StatusToArray()[s.Value()] == s.Label()
  {
    var all := AllStatuses();
    var values, labels := StatusValues(all), StatusLabels(all);
    CombineDistinct(values, labels);
    assert values[0] == "pending" && values[1] == "approved" && values[2] == "spam";
    forall s: CommentStatus ensures StatusToArray()[s.Value()] == s.Label() {
      match s
      case Pending => assert labels[0] == s.Label();
      case Approved => assert labels[1] == s.Label();
      case Spam => assert labels[2] == s.Label();
    }
  }

  /** A map of three entries with three distinct given keys is the display of those entries. */
  lemma MapOfThree(m: map<string, string>, k0: string, k1: string, k2: string, v0: string, v1: string, v2: string)
    requires |m| == 3 && k0 in m && m[k0] == v0 && k1 in m && m[k1] == v1 && k2 in m && m[k2] == v2
    requires k0 != k1 && k0 != k2 && k1 != k2
    ensures m == map[k0 := v0, k1 := v1, k2 := v2]
  {
    var given := {k0, k1, k2};
    assert |given| == 3;
    assert m.Keys == given by {
      assert given <= m.Keys;
      assert |m.Keys - given| == |m.Keys| - |given|;
    }
  }

  lemma StatusToArrayContents()
    ensures |StatusToArray()| == 3
    ensures StatusToArray() == map["pending" := "Pending", "approved" := "Approved", "spam" := "Spam"]
    ensures forall s: CommentStatus :: StatusToArray()[s.Value()] == s.Label()
  {
    StatusToArrayEntries();
    assert Pending.Value() == "pending" && Approved.Value() == "approved" && Spam.Value() == "spam";
    MapOfThree(StatusToArray(), "pending", "approved", "spam", "Pending", "Approved", "Spam");
  }

  // ---------------------------------------------------------------------------
  // ReactionType

  datatype ReactionType = Like | Dislike
  {
    /** The backing value stored in the `type` column. */
    function Value(): (v: string)
    {
      match this
      case Like => "like"
      case Dislike => "dislike"
    }

    function Label(): (l: string)
      ensures |l| == |Value()| > 0 && l[1..] == Value()[1..]
      ensures l[0] as int == Value()[0] as int - 32
    {
      match this
      case Like => "Like"
      case Dislike => "Dislike"
    }

    function Emoji(): (e: string)
      ensures |e| == 1
      ensures this == Like <==> e[0] == '\U{1F44D}'
      ensures this == Dislike <==> e[0] == '\U{1F44E}'
    {
      match this
      case Like => "\U{1F44D}"
      case Dislike => "\U{1F44E}"
    }
  }

  /**
   * `ReactionType::tryFrom`: what the model's `type` cast does with a stored
   * value (the cast itself is `from`, which throws where this gives None).
   */
  function ReactionFromValue(v: string): (r: Option<ReactionType>)
    ensures r.Some? ==> r.value.Value() == v
    ensures forall t: ReactionType :: t.Value() == v ==> r == Some(t)
  {
    if v == "like" then Some(Like)
    else if v == "dislike" then Some(Dislike)
    else None
  }

  /** `ReactionType::all()`. */
  function AllReactionTypes(): (r: seq<ReactionType>)
    ensures |r| == 2
    ensures r[0] == Like && r[1] == Dislike
  {
    [Like, Dislike]
  }

  /** `all()` lists every case. */
  lemma AllReactionTypesComplete(t: ReactionType)
    ensures t in AllReactionTypes()
  {
    var r := AllReactionTypes();
    match t
    case Like => assert r[0] == t;
    case Dislike => assert r[1] == t;
  }

  function ReactionValues(ts: seq<ReactionType>): seq<string>
  {
    seq(|ts|, i requires 0 <= i < |ts| => ts[i].Value())
  }

  function ReactionLabels(ts: seq<ReactionType>): seq<string>
  {
    seq(|ts|, i requires 0 <= i < |ts| => ts[i].Label())
  }

  /** `ReactionType::toArray()`. */
  function ReactionToArray(): (m: map<string, string>)
    ensures forall t: ReactionType :: t.Value() in m
  {
    var values := ReactionValues(AllReactionTypes());
    assert values[0] == Like.Value() && values[1] == Dislike.Value();
    Combine(values, ReactionLabels(AllReactionTypes()))
  }

  /** Each backing value maps to its label, and there are no other keys. */
  lemma ReactionToArrayEntries()
    ensures |ReactionToArray()| == 2
    ensures forall t: ReactionType :: ReactionToArray()[t.Value()] == t.Label()
  {
    var all := AllReactionTypes();
    var values, labels := ReactionValues(all), ReactionLabels(all);
    CombineDistinct(values, labels);
    assert values[0] == "like" && values[1] == "dislike";
    forall t: ReactionType ensures ReactionToArray()[t.Value()] == t.Label() {
      match t
      case Like => assert labels[0] == t.Label();
      case Dislike => assert labels[1] == t.Label();
    }
  }

  /** A map of two entries with two distinct given keys is the display of those entries. */
  lemma MapOfTwo(m: map<string, string>, k0: string, k1: string, v0: string, v1: string)
    requires |m| == 2 && k0 in m && m[k0] == v0 && k1 in m && m[k1] == v1 && k0 != k1
    ensures m == map[k0 := v0, k1 := v1]
  {
    var given := {k0, k1};
    assert |given| == 2;
    assert m.Keys == given by {
      assert given <= m.Keys;
      assert |m.Keys - given| == |m.Keys| - |given|;
    }
  }

  lemma ReactionToArrayContents()
    ensures |ReactionToArray()| == 2
    ensures ReactionToArray() == map["like" := "Like", "dislike" := "Dislike"]
    ensures forall t: ReactionType :: ReactionToArray()[t.Value()] == t.Label()
  {
    ReactionToArrayEntries();
    assert Like.Value() == "like" && Dislike.Value() == "dislike";
    MapOfTwo(ReactionToArray(), "like", "dislike", "Like", "Dislike");
  }

  /** The emoji table: thumbs up for LIKE, thumbs down for DISLIKE, and the two differ. */
  lemma EmojiTable()
    ensures Like.Emoji() == "\U{1F44D}" && Dislike.Emoji() == "\U{1F44E}"
    ensures forall t: ReactionType, u: ReactionType :: t.Emoji() == u.Emoji() ==> t == u
  {
  }
}
