/**
 * Clearing the results of an earlier run: `prevResult` picks the names of raw output
 * files, and the loop over the directory listing removes each of them, skipping any
 * whose removal fails.
 */
module Cleanup {

  /** Python's `sub in s` on strings. */
  predicate IsSubstring(sub: string, s: string)
    decreases |s|
  {
    |sub| <= |s| && (s[..|sub|] == sub || (|s| > 0 && IsSubstring(sub, s[1..])))
  }

  /** `sub` stands in `s` starting at index `i`. */
  predicate OccursAt(sub: string, s: string, i: int) {
    0 <= i && i + |sub| <= |s| && s[i..i + |sub|] == sub
  }

  /** `sub in s` holds exactly when `sub` occurs in `s` at some position. */
  lemma {:induction false} IsSubstringIff(sub: string, s: string)
    ensures IsSubstring(sub, s) <==> exists i :: OccursAt(sub, s, i)
    decreases |s|
  {
    if |sub| <= |s| && s[..|sub|] == sub {
      assert OccursAt(sub, s, 0);
    } else if |sub| <= |s| && |s| > 0 {
      IsSubstringIff(sub, s[1..]);
      if IsSubstring(sub, s[1..]) {
        var i :| OccursAt(sub, s[1..], i);
        assert s[1..][i..i + |sub|] == s[i + 1..i + 1 + |sub|];
        assert OccursAt(sub, s, i + 1);
      }
      if exists i :: OccursAt(sub, s, i) {
        var i :| OccursAt(sub, s, i);
        assert i != 0;
        assert s[1..][i - 1..i - 1 + |sub|] == s[i..i + |sub|];
        assert OccursAt(sub, s[1..], i - 1);
      }
    }
  }

  /** A string containing a character that `s` lacks is not a substring of `s`. */
  lemma NotSubstringWithout(sub: string, s: string, c: char)
    requires c in sub && c !in s
    ensures !IsSubstring(sub, s)
  {
    IsSubstringIff(sub, s);
  }

  /** `prevResult`: a raw waveform (`wave_`) or trigger (`TR_`) file with `.dat` in its name. */
  predicate PrevResult(name: string): (b: bool)
    ensures b <==>
      && ((exists i :: OccursAt("wave_", name, i)) || (exists i :: OccursAt("TR_", name, i)))
      && exists i :: OccursAt(".dat", name, i)
  {
    IsSubstringIff("wave_", name);
    IsSubstringIff("TR_", name);
    IsSubstringIff(".dat", name);
    (IsSubstring("wave_", name) || IsSubstring("TR_", name)) && IsSubstring(".dat", name)
  }

  /** The names of `listing` that the loop removes, in listing order. */
  function Removed(listing: seq<string>, failing: set<string>): seq<string> {
    if listing == [] then []
    else
      var n := listing[|listing| - 1];
      Removed(listing[..|listing| - 1], failing) + (if PrevResult(n) && n !in failing then [n] else [])
  }

  /** The names of `listing` that the loop leaves in place, in listing order. */
  function Kept(listing: seq<string>, failing: set<string>): seq<string> {
    if listing == [] then []
    else
      var n := listing[|listing| - 1];
      Kept(listing[..|listing| - 1], failing) + (if PrevResult(n) && n !in failing then [] else [n])
  }

  /**
   * The cleanup loop over a directory listing. `failing` holds the names whose `remove`
   * raises; those are skipped and the loop goes on. Returns the names still present and
   * the names removed, each in listing order.
   */
  method ClearPreviousResults(listing: seq<string>, failing: set<string>)
    returns (kept: seq<string>, removed: seq<string>)
    ensures removed == Removed(listing, failing) && kept == Kept(listing, failing)
    ensures forall n :: n in removed <==> n in listing && PrevResult(n) && n !in failing
    ensures forall n :: n in kept <==> n in listing && (!PrevResult(n) || n in failing)
    ensures |kept| + |removed| == |listing|
  {
    kept, removed := [], [];
    for i := 0 to |listing|
      invariant removed == Removed(listing[..i], failing) && kept == Kept(listing[..i], failing)
      invariant forall n :: n in removed <==> n in listing[..i] && PrevResult(n) && n !in failing
      invariant forall n :: n in kept <==> n in listing[..i] && (!PrevResult(n) || n in failing)
      invariant |kept| + |removed| == i
    {
      assert listing[..i + 1] == listing[..i] + [listing[i]];
      assert listing[..i + 1][..i] == listing[..i];
      var name := listing[i];
      if PrevResult(name) {
        if name in failing {
          kept := kept + [name];
          continue;
        }
        removed := removed + [name];
      } else {
        kept := kept + [name];
      }
    }
    assert listing[..|listing|] == listing;
  }

  /** The acquisition's raw waveform file is matched. */
  lemma PrevResultMatchesWave()
    ensures PrevResult("wave_0.dat")
  {
    assert "wave_0.dat"[..5] == "wave_";
    assert OccursAt(".dat", "wave_0.dat", 6);
    IsSubstringIff(".dat", "wave_0.dat");
  }

  /** The acquisition's raw trigger file is matched. */
  lemma PrevResultMatchesTrigger()
    ensures PrevResult("TR_0_0.dat")
  {
    assert "TR_0_0.dat"[..3] == "TR_";
    assert OccursAt(".dat", "TR_0_0.dat", 6);
    IsSubstringIff(".dat", "TR_0_0.dat");
  }

  /** A converted array is left alone: it has no `.dat` in its name. */
  lemma PrevResultSparesArray()
    ensures !PrevResult("wave_0.npy")
  {
    NotSubstringWithout(".dat", "wave_0.npy", 'd');
  }

  lemma NeitherPrefixInConfig()
    ensures !IsSubstring("wave_", "config.dat")
    ensures !IsSubstring("TR_", "config.dat")
  {
    NotSubstringWithout("wave_", "config.dat", 'w');
    NotSubstringWithout("TR_", "config.dat", 'T');
  }

  /** An unrelated `.dat` file is left alone: it is neither a waveform nor a trigger file. */
  lemma PrevResultSparesOtherDat()
    ensures !PrevResult("config.dat")
  {
    NeitherPrefixInConfig();
  }
}
