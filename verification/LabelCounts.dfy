/** Counting labels in a map, and adding counts up. */
module LabelCounts {
  function CountOf(labels: seq<string>, tag: string): nat {
    if labels == [] then 0 else CountOf(labels[..|labels| - 1], tag) + if labels[|labels| - 1] == tag then 1 else 0
  }

  function At(counts: map<string, nat>, tag: string): nat {
    if tag in counts then counts[tag] else 0
  }

  function Bump(counts: map<string, nat>, tag: string): map<string, nat> {
    counts[tag := At(counts, tag) + 1]
  }

  /** The map counts exactly the labels that occur. */
  ghost predicate Counts(counts: map<string, nat>, labels: seq<string>) {
    forall tag :: (tag in counts <==> tag in labels) && At(counts, tag) == CountOf(labels, tag)
  }

  lemma CountsBump(counts: map<string, nat>, labels: seq<string>, tag: string)
    requires Counts(counts, labels)
    ensures Counts(Bump(counts, tag), labels + [tag])
  {
    assert (labels + [tag])[..|labels|] == labels;
  }

  ghost function Sum(labels: set<string>, f: string -> nat): nat {
    if labels == {} then 0
    else
      var tag :| tag in labels;
      f(tag) + Sum(labels - {tag}, f)
  }

  lemma {:induction false} SumPick(labels: set<string>, tag: string, f: string -> nat)
    requires tag in labels
    ensures Sum(labels, f) == f(tag) + Sum(labels - {tag}, f)
  {
    var first :| first in labels && Sum(labels, f) == f(first) + Sum(labels - {first}, f);
    if first != tag {
      SumPick(labels - {first}, tag, f);
      SumPick(labels - {tag}, first, f);
      assert labels - {first} - {tag} == labels - {tag} - {first};
    }
  }

  lemma {:induction false} SumAlike(labels: set<string>, f: string -> nat, g: string -> nat)
    requires forall tag | tag in labels :: f(tag) == g(tag)
    ensures Sum(labels, f) == Sum(labels, g)
  {
    if labels != {} {
      var tag :| tag in labels;
      SumPick(labels, tag, f);
      SumPick(labels, tag, g);
      SumAlike(labels - {tag}, f, g);
    }
  }

  /** Raising the value at one label raises the sum by as much, also when the label is new and had none. */
  lemma SumRaise(labels: set<string>, tag: string, f: string -> nat, g: string -> nat, rise: nat)
    requires forall other | other in labels && other != tag :: f(other) == g(other)
    requires g(tag) == f(tag) + rise && (tag !in labels ==> f(tag) == 0)
    ensures Sum(labels + {tag}, g) == Sum(labels, f) + rise
  {
    var rest := labels - {tag};
    assert labels + {tag} - {tag} == rest;
    SumPick(labels + {tag}, tag, g);
    SumAlike(rest, f, g);
    if tag in labels {
      SumPick(labels, tag, f);
    } else {
      assert rest == labels;
    }
  }

  /** The counts of the labels add up to how many there are, over any set that holds them all. */
  lemma {:induction false} CountsSumToTotal(labels: seq<string>, all: set<string>)
    requires forall tag | tag in labels :: tag in all
    ensures Sum(all, tag => CountOf(labels, tag)) == |labels|
  {
    if labels == [] {
      SumZero(all);
    } else {
      var front, last := labels[..|labels| - 1], labels[|labels| - 1];
      CountsSumToTotal(front, all);
      assert last in labels && all + {last} == all;
      SumRaise(all, last, tag => CountOf(front, tag), tag => CountOf(labels, tag), 1);
    }
  }

  lemma {:induction false} SumZero(labels: set<string>)
    ensures Sum(labels, tag => CountOf([], tag)) == 0
  {
    if labels != {} {
      var tag :| tag in labels;
      SumPick(labels, tag, t => CountOf([], t));
      SumZero(labels - {tag});
    }
  }
}
