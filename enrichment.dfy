/** The enrichment cache of the Express server (server/index.js): a
    process-wide cache with a time-to-live in front of the external text
    generator, and the cleanup that turns the generator's text into a
    one-liner. Time is an explicit parameter `now`, in seconds; the generator
    is represented by the answer it would give if asked. */
module Enrichment {
  import opened Text
  import opened Wrappers

  /** The cache's default time-to-live, `stdTTL: 3600`, in seconds. */
  const StdTtl: int := 3600

  /** A cached value and the instant from which it is no longer served. */
  datatype Entry = Entry(value: string, expiresAt: int)

  /** What the generator request yields. `RequestFailed` is a rejected
      request; `Replied(None)` is a response whose `data[0].generated_text`
      is missing or not a string, on which the code throws while reading it;
      `Replied(Some(t))` carries the generated text `t`. */
  datatype GeneratorReply = RequestFailed | Replied(generatedText: Option<string>)

  /** `k` ends the first line of `text`: the index of its first `\n`, or its
      length when it has none. */
  predicate LineEnd(text: string, k: int) {
    0 <= k <= |text| && '\n' !in text[..k] && (k < |text| ==> text[k] == '\n')
  }

  /** The first `\n`-separated line of the generated text, trimmed: the
      strip of the text up to its first `\n`, hence without line break and
      without whitespace at either end. */
  function FirstLine(text: string): (r: string)
    ensures exists k :: LineEnd(text, k) && r == Strip(text[..k], JsSpace)
    ensures '\n' !in r
    ensures Stripped(r, JsSpace)
    ensures forall x :: x in r ==> x in text
  {
    var line := Split(text, '\n')[0];
    var r := Strip(line, JsSpace);
    assert line == text[..|line|];
    assert LineEnd(text, |line|);
    assert forall x :: x in line ==> x in text by {
      forall x | x in line ensures x in text {
        var i :| 0 <= i < |line| && line[i] == x;
        assert text[i] == x;
      }
    }
    r
  }

  /** The one-liner made of the generator's text: the trimmed first line, cut
      after its first '.' when it has one. It never holds a line break; with a
      '.', it is the prefix of the trimmed first line that ends at its first
      '.'; without one, it is the trimmed first line. */
  function CleanGenerated(text: string): (r: string)
    ensures '\n' !in r
    ensures '.' !in FirstLine(text) ==> r == FirstLine(text)
    ensures '.' in FirstLine(text) ==>
              (|r| >= 1 && r[|r| - 1] == '.' && '.' !in r[..|r| - 1]
               && IsPrefix(r, FirstLine(text)))
  {
    FirstSentence(FirstLine(text))
  }

  /** Cleaning a one-liner again changes nothing. */
  lemma CleanGeneratedIdempotent(text: string)
    ensures CleanGenerated(CleanGenerated(text)) == CleanGenerated(text)
  {
    CleanGeneratedStripped(text);
    FirstLineFixed(CleanGenerated(text));
    FirstSentenceIdempotent(FirstLine(text));
  }

  /** The one-liner has no whitespace at either end. */
  lemma CleanGeneratedStripped(text: string)
    ensures Stripped(CleanGenerated(text), JsSpace)
  {
    assert !JsSpace('.');
    FirstSentenceStripped(FirstLine(text), JsSpace);
  }

  /** A trimmed text without a line break is its own first line. */
  lemma FirstLineFixed(s: string)
    requires '\n' !in s && Stripped(s, JsSpace)
    ensures FirstLine(s) == s
  {
    assert Split(s, '\n') == [s];
    StripStripped(s, JsSpace);
  }

  /** A generated text whose first line is blank cleans to the empty string,
      which the cache stores but never serves as a hit. */
  lemma BlankFirstLine(rest: string)
    ensures CleanGenerated("\n" + rest) == ""
  {
    var text := "\n" + rest;
    assert text[0] == '\n';
    assert Split(text, '\n')[0] == "";
  }

  /** What a read of the cache finds: the value of a stored entry that has
      not expired. An entry is served strictly before its expiry instant. */
  function Lookup(entries: map<string, Entry>, key: string, now: int): (r: Option<string>)
    ensures r.Some? <==> key in entries && now < entries[key].expiresAt
    ensures r.Some? ==> r.value == entries[key].value
  {
    if key in entries && now < entries[key].expiresAt then Some(entries[key].value) else None
  }

  /** The source's `if (cachedResponse)`: a found value counts only when it is
      truthy, so an empty string is a miss. */
  function IsHit(cached: Option<string>): (r: bool)
    ensures cached.None? ==> !r
    ensures cached == Some("") ==> !r
    ensures cached.Some? && cached.value != "" ==> r
  {
    cached.Some? && cached.value != ""
  }

  /** After a value is stored at `setAt`, it is served for exactly the next
      `StdTtl` seconds, and the other keys read as before. */
  lemma LookupAfterSet(entries: map<string, Entry>, key: string, value: string, setAt: int, now: int, other: string)
    requires other != key
    ensures Lookup(entries[key := Entry(value, setAt + StdTtl)], key, now)
            == (if now < setAt + StdTtl then Some(value) else None)
    ensures Lookup(entries[key := Entry(value, setAt + StdTtl)], other, now) == Lookup(entries, other, now)
  {
  }

  /** An expired entry is never served again, whatever the time. */
  lemma ExpiredStaysExpired(entries: map<string, Entry>, key: string, t1: int, t2: int)
    requires t1 <= t2 && Lookup(entries, key, t1).None?
    ensures Lookup(entries, key, t2).None?
  {
  }

  /** The process-wide cache (`new NodeCache({ stdTTL: 3600 })`). */
  class Cache {
    var entries: map<string, Entry>

    constructor ()
      ensures entries == map[]
    {
      entries := map[];
    }

    /** `cache.get(key)` at time `now`. */
    function Get(key: string, now: int): (r: Option<string>)
      reads this
      ensures r.Some? <==> key in entries && now < entries[key].expiresAt
      ensures r.Some? ==> r.value == entries[key].value
    {
      Lookup(entries, key, now)
    }

    /** `cache.set(key, value)` at time `now`, with the default TTL. */
    method Set(key: string, value: string, now: int)
      modifies this
      ensures entries == old(entries)[key := Entry(value, now + StdTtl)]
    {
      entries := entries[key := Entry(value, now + StdTtl)];
    }

    /** `generateExpandedDescription(description)` at time `now`, where
        `reply` is what the generator answers if it is asked. A truthy cached
        value is returned without asking the generator and without touching
        the cache. Otherwise the generator is asked; on success the one-liner
        is stored under the raw description and returned; on any failure the
        result is `null` (`None`) and the cache is unchanged. */
    method GenerateExpandedDescription(description: string, now: int, reply: GeneratorReply)
      returns (result: Option<string>, generatorCalled: bool)
      modifies this
      ensures IsHit(old(Get(description, now))) ==>
                result == old(Get(description, now)) && !generatorCalled && entries == old(entries)
      ensures !IsHit(old(Get(description, now))) ==> generatorCalled
      ensures !IsHit(old(Get(description, now))) && reply.Replied? && reply.generatedText.Some? ==>
                result == Some(CleanGenerated(reply.generatedText.value))
                && entries == old(entries)[description := Entry(result.value, now + StdTtl)]
      ensures !IsHit(old(Get(description, now))) && (reply.RequestFailed? || reply.generatedText.None?) ==>
                result == None && entries == old(entries)
    {
      var cachedResponse := Get(description, now);
      if IsHit(cachedResponse) {
        return cachedResponse, false;
      }
      generatorCalled := true;
      match reply {
        case RequestFailed =>
          result := None;
        case Replied(None) =>
          result := None;
        case Replied(Some(text)) =>
          var generatedText := CleanGenerated(text);
          Set(description, generatedText, now);
          result := Some(generatedText);
      }
    }
  }

  /** Two requests for the same description within the TTL, in sequence: if
      the first asked the generator and got a non-empty one-liner, the second
      returns the same one-liner without asking. If the first stored an empty
      one-liner, the second asks again. */
  method SameDescriptionTwice(cache: Cache, description: string, t1: int, t2: int,
                              reply1: GeneratorReply, reply2: GeneratorReply)
    returns (first: Option<string>, second: Option<string>, calledFirst: bool, calledSecond: bool)
    requires t1 <= t2 < t1 + StdTtl
    modifies cache
    ensures calledFirst && first.Some? && first.value != "" ==> second == first && !calledSecond
    ensures calledFirst && first == Some("") ==> calledSecond
  {
    first, calledFirst := cache.GenerateExpandedDescription(description, t1, reply1);
    second, calledSecond := cache.GenerateExpandedDescription(description, t2, reply2);
  }
}
