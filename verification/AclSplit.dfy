/**
  What joining the rules of a log by spaces and splitting the text again does to them.
*/
module AclSplit {
  import opened Wrappers
  import opened SdsText
  import opened AclRuleText

  lemma {:induction false} SplitJoinPlain(rules: seq<string>)
    requires PlainWords(rules)
    ensures SplitArgs(Join(rules)) == Some(rules)
    decreases |rules|
  {
    hide SplitArgs, Join, PlainWord;
    NothingToSplit();
    if rules != [] {
      var r, rest := rules[0], rules[1..];
      assert rules == [r] + rest && r in rules;
      assert forall x :: x in rest ==> x in rules;
      SplitJoinPlain(rest);
      JoinFirst(r, rest);
      if rest == [] {
        SplitFirst(r, "");
      } else {
        SplitFirst(r, " " + Join(rest));
        assert (" " + Join(rest))[1..] == Join(rest);
      }
    }
  }

  lemma NothingToSplit()
    ensures SplitArgs("") == Some([]) && Join([]) == ""
  {
  }

  lemma {:induction false} JoinLength(rules: seq<string>)
    requires rules != []
    ensures |Join(rules)| + 1 == Cost(rules)
    decreases |rules|
  {
    if |rules| == 1 {
      assert rules[1..] == [];
    } else {
      JoinLength(rules[1..]);
    }
  }

  /**
    A log of any rules, joined to a text, is split into the same rules exactly when every
    rule is plain: no blank, quote or terminator in it.
  */
  lemma SplitJoin(rules: seq<string>)
    ensures SplitArgs(Join(rules)) == Some(rules) <==> PlainWords(rules)
  {
    if PlainWords(rules) {
      SplitJoinPlain(rules);
    } else if SplitArgs(Join(rules)) == Some(rules) {
      SplitCost(Join(rules));
      JoinLength(rules);
    }
  }
}
