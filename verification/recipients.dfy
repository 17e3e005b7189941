/** The recipient filter: a message qualifies when one of its To, Cc or Bcc
    addresses equals a wanted address, both compared after trimming and
    lower-casing. */
module Recipients {
  import opened Types
  import opened Strings
  import opened Mail

  /** The wanted addresses in normal form, blank entries dropped. */
  function Wanted(want: seq<string>): (m: set<string>)
    ensures forall s :: s in m <==> s != [] && exists w :: w in want && Canonical(w) == s
  {
    if want == [] then {}
    else
      var s := Canonical(want[0]);
      var rest := Wanted(want[1..]);
      assert forall w :: w in want <==> w == want[0] || w in want[1..];
      if s != [] then {s} + rest else rest
  }

  /** Some non-nil address of the list is wanted. */
  function AnyWanted(list: seq<Option<string>>, m: set<string>): (b: bool)
    ensures b <==> exists i :: 0 <= i < |list| && list[i].Some? && Canonical(list[i].value) in m
  {
    if list == [] then false
    else if list[0].Some? && Canonical(list[0].value) in m then true
    else
      var b := AnyWanted(list[1..], m);
      assert forall i :: 1 <= i < |list| ==> list[i] == list[1..][i - 1];
      assert b ==> exists i :: 1 <= i < |list| && list[i].Some? && Canonical(list[i].value) in m by {
        if b {
          var i :| 0 <= i < |list| - 1 && list[1..][i].Some? && Canonical(list[1..][i].value) in m;
          assert list[i + 1] == list[1..][i];
        }
      }
      b
  }

  /** Every recipient entry of the envelope: To, then Cc, then Bcc. */
  function Addresses(env: Envelope): seq<Option<string>> {
    env.to + env.cc + env.bcc
  }

  lemma AnyWantedConcat(a: seq<Option<string>>, b: seq<Option<string>>, m: set<string>)
    ensures AnyWanted(a + b, m) <==> AnyWanted(a, m) || AnyWanted(b, m)
  {
    if AnyWanted(a, m) {
      var i :| 0 <= i < |a| && a[i].Some? && Canonical(a[i].value) in m;
      assert (a + b)[i] == a[i];
    }
    if AnyWanted(b, m) {
      var i :| 0 <= i < |b| && b[i].Some? && Canonical(b[i].value) in m;
      assert (a + b)[|a| + i] == b[i];
    }
    if AnyWanted(a + b, m) {
      var i :| 0 <= i < |a + b| && (a + b)[i].Some? && Canonical((a + b)[i].value) in m;
      if i < |a| {
        assert (a + b)[i] == a[i];
      } else {
        assert (a + b)[i] == b[i - |a|];
      }
    }
  }

  /** `recipientsMatch`: true iff some non-nil To/Cc/Bcc address and some
      non-blank wanted entry have the same trimmed, lower-cased form. */
  function RecipientsMatch(env: Envelope, want: seq<string>): (b: bool)
    ensures b <==> exists i, w :: 0 <= i < |Addresses(env)| && Addresses(env)[i].Some? && w in want
                                  && Canonical(w) != [] && Canonical(Addresses(env)[i].value) == Canonical(w)
  {
    var m := Wanted(want);
    AnyWantedConcat(env.to, env.cc, m);
    AnyWantedConcat(env.to + env.cc, env.bcc, m);
    AnyWantedMeansMatch(Addresses(env), want);
    AnyWanted(env.to, m) || AnyWanted(env.cc, m) || AnyWanted(env.bcc, m)
  }

  /** Membership in the wanted set is equality with a non-blank wanted entry. */
  lemma AnyWantedMeansMatch(list: seq<Option<string>>, want: seq<string>)
    ensures AnyWanted(list, Wanted(want)) <==>
            exists i, w :: 0 <= i < |list| && list[i].Some? && w in want
                           && Canonical(w) != [] && Canonical(list[i].value) == Canonical(w)
  {
    var m := Wanted(want);
    if AnyWanted(list, m) {
      var i :| 0 <= i < |list| && list[i].Some? && Canonical(list[i].value) in m;
      var w :| w in want && Canonical(w) == Canonical(list[i].value);
      assert Canonical(w) != [];
    }
  }

  /** A wanted list whose entries are all blank matches no message at all. */
  lemma BlankWantedMatchesNothing(env: Envelope, want: seq<string>)
    requires forall i :: 0 <= i < |want| ==> TrimSpace(want[i]) == []
    ensures !RecipientsMatch(env, want)
  {
    forall w | w in want ensures Canonical(w) == [] {
      var i :| 0 <= i < |want| && want[i] == w;
    }
  }
}
