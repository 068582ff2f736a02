/**
 * The service: the three snippet routes behind `verifyToken`, over one snippet collection.
 * Each request is one atomic step; `fault` stands for the store failing that step.
 */
module Server {
  import opened Wrappers
  import JsString
  import opened Snippets
  import opened SnippetStore
  import opened Http
  import Auth

  /** `!text || text.trim() === ''`: the create route's input check. */
  predicate IsEmptyText(text: Option<string>) {
    text.None? || text.value == "" || JsString.Trim(text.value) == ""
  }

  /** Ids are unique and below the next id handed out; every stored text is valid and not blank. */
  predicate StoreInvariant(store: seq<Snippet>, nextId: Id) {
    && UniqueIds(store)
    && (forall x :: x in store ==> x.id < nextId)
    && (forall x :: x in store ==> Snippets.Valid(x) && !JsString.IsBlank(x.text))
  }

  /** Appending a valid, non-blank snippet that takes the next id keeps the invariant for the id after it. */
  lemma AppendKeepsInvariant(store: seq<Snippet>, nextId: Id, s: Snippet)
    requires StoreInvariant(store, nextId)
    requires s.id == nextId && Snippets.Valid(s) && !JsString.IsBlank(s.text)
    ensures StoreInvariant(store + [s], nextId + 1)
    ensures s.id !in Ids(store)
  {
  }

  /** A text that passes the create route's check is present and not blank. */
  lemma NonEmptyTextNotBlank(text: Option<string>)
    requires !IsEmptyText(text)
    ensures text.Some? && text.value != "" && !JsString.IsBlank(text.value)
  {
  }

  class Service {
    /** Environment read at start-up and never changed. */
    const config: Auth.Config
    /** The `snippets` collection, in insertion order. */
    var store: seq<Snippet>
    /** The next id the store hands out. */
    var nextId: Id

    /** The object invariant: that of the collection and the id counter. */
    ghost predicate Valid()
      reads this
    {
      StoreInvariant(store, nextId)
    }

    constructor (config: Auth.Config)
      ensures Valid() && this.config == config && store == [] && nextId == 0
    {
      this.config := config;
      store := [];
      nextId := 0;
    }

    /**
     * `GET /api/snippets`: behind the gate, every stored snippet, newest first.
     * The store is not touched.
     */
    method List(authorization: Option<string>, nowMs: nat, fault: bool) returns (r: Response)
      ensures var d := Auth.Gate(config.jwtSecret, config.hmac, authorization, nowMs);
        && (d.Reject? ==> r == Response(d.status, StatusText))
        && (d.Admit? && fault ==> r == Response(500, ErrorMessage))
        && (d.Admit? && !fault ==> r.status == 200)
      ensures r.status == 200 ==>
                r.body.SnippetList? && IsNewestFirst(r.body.snippets)
                && multiset(r.body.snippets) == multiset(store)
    {
      var d := Auth.Gate(config.jwtSecret, config.hmac, authorization, nowMs);
      if d.Reject? {
        return Response(d.status, StatusText);
      }
      if fault {
        return Response(500, ErrorMessage);
      }
      r := Response(200, SnippetList(SortNewestFirst(store)));
    }

    /**
     * `POST /api/snippets`: behind the gate, a missing or blank text is 400; otherwise a new
     * snippet with that text, a fresh id and `createdAt` defaulted to now is the one addition
     * to the store and is returned with 201. A store failure is 400 and adds nothing.
     */
    method Create(authorization: Option<string>, nowMs: nat, text: Option<string>, fault: bool)
      returns (r: Response)
      requires Valid()
      modifies this
      ensures Valid()
      ensures var d := Auth.Gate(config.jwtSecret, config.hmac, authorization, nowMs);
        && (d.Reject? ==> r == Response(d.status, StatusText))
        && (d.Admit? && IsEmptyText(text) ==> r == Response(400, Message(EmptySnippetText)))
        && (d.Admit? && !IsEmptyText(text) && fault ==> r == Response(400, ErrorMessage))
        && (r.status == 201 <==> d.Admit? && !IsEmptyText(text) && !fault)
      ensures r.status != 201 ==> store == old(store) && nextId == old(nextId)
      ensures r.status == 201 ==>
                r.body.SnippetRecord?
                && var s := r.body.snippet;
                && s.text == text.value && s.createdAt == nowMs && s.id !in Ids(old(store))
                && store == old(store) + [s]
    {
      var d := Auth.Gate(config.jwtSecret, config.hmac, authorization, nowMs);
      if d.Reject? {
        return Response(d.status, StatusText);
      }
      if IsEmptyText(text) {
        return Response(400, Message(EmptySnippetText));
      }
      var doc := NewDocument(nextId, text, None, nowMs);
      if doc.Err? || fault {
        return Response(400, ErrorMessage);
      }
      var s := doc.value;
      NonEmptyTextNotBlank(text);
      AppendKeepsInvariant(store, nextId, s);
      store := store + [s];
      nextId := nextId + 1;
      r := Response(201, SnippetRecord(s));
    }

    /**
     * `DELETE /api/snippets/:id`: behind the gate, an id that is not stored is 404 and
     * changes nothing; a stored id is removed, every other snippet staying in its order.
     * A store failure is 500 and changes nothing.
     */
    method Delete(authorization: Option<string>, nowMs: nat, id: Id, fault: bool) returns (r: Response)
      requires Valid()
      modifies this
      ensures Valid()
      ensures var d := Auth.Gate(config.jwtSecret, config.hmac, authorization, nowMs);
        && (d.Reject? ==> r == Response(d.status, StatusText))
        && (d.Admit? && fault ==> r == Response(500, ErrorMessage))
        && (d.Admit? && !fault && id !in Ids(old(store)) ==> r == Response(404, Message(SnippetNotFound)))
        && (r.status == 200 <==> d.Admit? && !fault && id in Ids(old(store)))
      ensures r.status == 200 ==> r.body == Message(SnippetDeleted) && store == RemoveById(old(store), id)
      ensures r.status == 200 ==> Ids(store) == Ids(old(store)) - {id} && |store| == |old(store)| - 1
      ensures forall x :: x in store ==> x in old(store)
      ensures r.status != 200 ==> store == old(store)
      ensures nextId == old(nextId)
    {
      var d := Auth.Gate(config.jwtSecret, config.hmac, authorization, nowMs);
      if d.Reject? {
        return Response(d.status, StatusText);
      }
      if fault {
        return Response(500, ErrorMessage);
      }
      if id !in Ids(store) {
        return Response(404, Message(SnippetNotFound));
      }
      RemoveByIdUnique(store, id);
      store := RemoveById(store, id);
      r := Response(200, Message(SnippetDeleted));
    }
  }
}
