/** The 24 topic names. The generator
    (src/main/java/com/messaging/cloudserver/scheduler/DataInjectionScheduler.java:36-47),
    the controller (CloudServerController.java:56-65) and the message service
    (MessageService.java:29-38) each declare this same list; it is defined once here. */
module Topics {
  const All: seq<string> := [
    "prices-v1", "reference-data-v5", "non-promotable-products", "prices-v4",
    "minimum-price", "deposit", "product-base-document", "search-product",
    "location", "location-clusters", "selling-restrictions",
    "colleague-facts-jobs", "colleague-facts-legacy",
    "loss-prevention-configuration", "loss-prevention-store-configuration",
    "loss-prevention-product", "loss-prevention-rule-config",
    "stored-value-services-banned-promotion",
    "stored-value-services-active-promotion",
    "colleague-card-pin", "colleague-card-pin-v2",
    "dcxp-content", "restriction-rules", "dcxp-ugc"
  ]

  /** A draw of `random.nextInt(TOPICS.size())`. */
  type TopicIndex = i: int | 0 <= i < 24

  /** `TOPICS.get(i)`. */
  function Topic(i: TopicIndex): (t: string)
    ensures 1 <= |t| <= 40
  {
    AllShort();
    All[i]
  }

  /** No topic name is longer than 40 characters. */
  lemma AllShort()
    ensures |All| == 24
    ensures forall k :: 0 <= k < 24 ==> 1 <= |All[k]| <= 40
  {
  }

  /** Every draw names one of the configured topics, and every configured
      topic can be drawn. */
  lemma TopicsAreConfigured()
    ensures forall i: TopicIndex :: Topic(i) in All
    ensures forall name :: name in All ==> exists i: TopicIndex :: Topic(i) == name
  {
    forall name | name in All ensures exists i: TopicIndex :: Topic(i) == name {
      var i :| 0 <= i < |All| && All[i] == name;
      assert Topic(i) == name;
    }
  }
}
