/** Finding the career-guidance entry for a career title taken from a URL. */
module Guidance {
  import opened Text

  /** The keys of the career-guidance table, in its order; `default` is
      the entry shown for any other title. */
  const GuidanceKeys: seq<string> := ["Software Engineer", "Data Scientist", "Product Manager", "default"]

  /** The title as compared: `%20` decoded to a space, surrounding white
      space removed, lower-cased. */
  function CleanTitle(input: string): string {
    Lower(Strip(Replace(input, "%20", " ")))
  }

  /** The first key whose lower-case form is `clean`, or `default`. */
  function KeyFor(clean: string, keys: seq<string>): string
  {
    if keys == [] then "default"
    else if Lower(keys[0]) == clean then keys[0]
    else KeyFor(clean, keys[1..])
  }

  /** The guidance key for a title. */
  function CareerKey(input: string): string {
    KeyFor(CleanTitle(input), GuidanceKeys)
  }

  /** `get_career_key`: scans the keys in order and returns the first one
      that matches the cleaned title, or `default`. */
  method GetCareerKey(inputTitle: string) returns (key: string)
    ensures key == CareerKey(inputTitle)
  {
    var clean := Lower(Strip(Replace(inputTitle, "%20", " ")));
    for i := 0 to |GuidanceKeys|
      invariant KeyFor(clean, GuidanceKeys[i..]) == KeyFor(clean, GuidanceKeys)
    {
      assert GuidanceKeys[i..][0] == GuidanceKeys[i];
      assert GuidanceKeys[i..][1..] == GuidanceKeys[i + 1..];
      if Lower(GuidanceKeys[i]) == clean {
        return GuidanceKeys[i];
      }
    }
    return "default";
  }

  /** The result is the first matching key, and `default` when no key
      matches. */
  lemma {:induction false} KeyForSpec(clean: string, keys: seq<string>)
    ensures (forall i :: 0 <= i < |keys| ==> Lower(keys[i]) != clean) ==> KeyFor(clean, keys) == "default"
    ensures (exists i :: 0 <= i < |keys| && Lower(keys[i]) == clean) ==>
      exists j :: 0 <= j < |keys| && keys[j] == KeyFor(clean, keys) && Lower(keys[j]) == clean &&
        forall k :: 0 <= k < j ==> Lower(keys[k]) != clean
  {
    if keys != [] && Lower(keys[0]) != clean {
      KeyForSpec(clean, keys[1..]);
      var r := KeyFor(clean, keys);
      if exists i :: 0 <= i < |keys| && Lower(keys[i]) == clean {
        var i :| 0 <= i < |keys| && Lower(keys[i]) == clean;
        assert keys[1..][i - 1] == keys[i];
        var j :| 0 <= j < |keys[1..]| && keys[1..][j] == r && Lower(keys[1..][j]) == clean &&
          forall k :: 0 <= k < j ==> Lower(keys[1..][k]) != clean;
        assert keys[j + 1] == r;
        forall k | 0 <= k < j + 1
          ensures Lower(keys[k]) != clean
        {
          if k > 0 {
            assert keys[k] == keys[1..][k - 1];
          }
        }
      } else {
        forall i | 0 <= i < |keys[1..]|
          ensures Lower(keys[1..][i]) != clean
        {
          assert keys[1..][i] == keys[i + 1];
        }
      }
    }
  }

  /** A title that matches no key gets `default`; one that matches a key
      gets the first key of that lower-case form. */
  lemma CareerKeyMatches(input: string)
    ensures (forall i :: 0 <= i < |GuidanceKeys| ==> Lower(GuidanceKeys[i]) != CleanTitle(input)) ==>
      CareerKey(input) == "default"
    ensures (exists i :: 0 <= i < |GuidanceKeys| && Lower(GuidanceKeys[i]) == CleanTitle(input)) ==>
      CareerKey(input) in GuidanceKeys && Lower(CareerKey(input)) == CleanTitle(input)
  {
    KeyForSpec(CleanTitle(input), GuidanceKeys);
  }

  /** Every title leads to an entry of the table. */
  lemma CareerKeyIsKey(input: string)
    ensures CareerKey(input) in GuidanceKeys
  {
    KeyForSpec(CleanTitle(input), GuidanceKeys);
  }

  /** A key that matches, with no match before it, is the result. */
  lemma {:induction false} KeyForFirst(clean: string, keys: seq<string>, i: nat)
    requires i < |keys| && Lower(keys[i]) == clean
    requires forall k :: 0 <= k < i ==> Lower(keys[k]) != clean
    ensures KeyFor(clean, keys) == keys[i]
  {
    if i > 0 {
      assert Lower(keys[0]) != clean;
      assert keys[1..][i - 1] == keys[i];
      forall k | 0 <= k < i - 1
        ensures Lower(keys[1..][k]) != clean
      {
        assert keys[1..][k] == keys[k + 1];
      }
      KeyForFirst(clean, keys[1..], i - 1);
    }
  }

  /** The keys have no `%`, no surrounding white space, and lengths that
      differ, so their lower-case forms differ too. */
  lemma KeysShape()
    ensures forall i :: 0 <= i < |GuidanceKeys| ==> '%' !in GuidanceKeys[i] && IsStripped(GuidanceKeys[i])
    ensures forall k, i :: 0 <= k < i < |GuidanceKeys| ==> |GuidanceKeys[k]| != |GuidanceKeys[i]|
  {
  }

  /** The cleaned form of a key is its lower-case form. */
  lemma KeyIsClean(key: string)
    requires '%' !in key && IsStripped(key)
    ensures CleanTitle(key) == Lower(key)
  {
    ReplaceAbsent(key, "%20", " ");
    StripFixesStripped(key);
  }

  /** Looking up a key gives back that key. */
  lemma KeyRoundTrip(i: nat)
    requires i < |GuidanceKeys|
    ensures CareerKey(GuidanceKeys[i]) == GuidanceKeys[i]
  {
    var key := GuidanceKeys[i];
    KeysShape();
    KeyIsClean(key);
    forall k | 0 <= k < i
      ensures Lower(GuidanceKeys[k]) != Lower(key)
    {
      assert |Lower(GuidanceKeys[k])| == |GuidanceKeys[k]|;
    }
    KeyForFirst(Lower(key), GuidanceKeys, i);
  }

  /** Looking up the key a title leads to gives back that key, so a
      guidance link built from a key leads to the same entry. */
  lemma CareerKeyIdempotent(input: string)
    ensures CareerKey(CareerKey(input)) == CareerKey(input)
  {
    CareerKeyIsKey(input);
    var i :| 0 <= i < |GuidanceKeys| && GuidanceKeys[i] == CareerKey(input);
    KeyRoundTrip(i);
  }

  lemma LowerSoftwareEngineer()
    ensures Lower("Software Engineer") == "software engineer"
  {
  }

  /** `%20` in a title reads as a space. */
  lemma EncodedSpace(a: string, b: string)
    requires '%' !in a && '%' !in b
    ensures CleanTitle(a + "%20" + b) == CleanTitle(a + " " + b)
  {
    ReplaceAfter(a, "%20", " ", b);
    ReplaceAbsent(b, "%20", " ");
    ReplaceAbsent(a + " " + b, "%20", " ");
  }

  /** The title of the software-engineer entry is already lower case. */
  lemma LowerIsFixed()
    ensures Lower("software engineer") == "software engineer"
  {
    LowerSoftwareEngineer();
    LowerIsLower("Software Engineer");
    LowerIsLower("software engineer");
  }

  /** Two words joined by `%20` clean to the words joined by a space,
      when that is already stripped and lower case. */
  lemma CleanJoined(a: string, b: string)
    requires '%' !in a && '%' !in b
    requires IsStripped(a + " " + b) && Lower(a + " " + b) == a + " " + b
    ensures CleanTitle(a + "%20" + b) == a + " " + b
  {
    EncodedSpace(a, b);
    ReplaceAbsent(a + " " + b, "%20", " ");
    StripFixesStripped(a + " " + b);
  }

  /** A title as it appears in a guidance URL. */
  lemma EncodedTitle()
    ensures CareerKey("software%20engineer") == "Software Engineer"
  {
    assert "software%20engineer" == "software" + "%20" + "engineer";
    assert "software" + " " + "engineer" == "software engineer";
    LowerIsFixed();
    CleanJoined("software", "engineer");
    LowerSoftwareEngineer();
    KeyForFirst("software engineer", GuidanceKeys, 0);
  }
}
