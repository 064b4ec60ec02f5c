/**
  The missions page: nine missions rendered as cards, a row of filter buttons that show
  the cards of one status (or all of them), and a "start" button on every card that puts
  its mission in progress.

  A card is modelled by the mission it shows, its `data-status` and its `style.display`;
  filter buttons by their `data-filter` and whether they carry the highlight classes
  (`bg-primary text-white`).
 */
module MissionBoard {
  import opened Results

  const Pending := "pending"
  const InProgress := "progress"
  const ShowAll := "all"

  datatype Mission = Mission(id: string, title: string, points: nat, desc: string, status: string)

  /** The `missions` array of the page. */
  const Catalogue: seq<Mission> := [
    Mission("M1", "Selecionar a sua área", 50, "Escolha sua área de atuação.", Pending),
    Mission("M2", "Fazer Voluntários", 70, "Participe de iniciativas sociais.", Pending),
    Mission("M3", "Fazer Certificações", 120, "Conclua certificações recomendadas.", Pending),
    Mission("M4", "Fazer o Compliance", 100, "Realize os treinamentos obrigatórios.", Pending),
    Mission("M5", "Conhecer o prédio", 40, "Explore o prédio e seus setores.", Pending),
    Mission("M6", "Conhecer Cases de Sucesso", 60, "Veja histórias reais de clientes Oracle.", Pending),
    Mission("M7", "Conhecer o Impacto Social", 70, "Descubra como a Oracle gera impacto.", Pending),
    Mission("M8", "Conhecer os seus Benefícios", 90, "Conheça todos seus benefícios.", Pending),
    Mission("M9", "Atividades de Bem Estar", 60, "Pratique atividades para bem-estar.", Pending)
  ]

  /** `style.display` of a card: never set, "flex" or "none". */
  datatype Display = Unset | Flex | Hidden

  datatype Card = Card(missionId: string, status: string, display: Display)

  /** The test a filter click applies to each card: "all" passes every status, any other
      filter passes exactly its own status. */
  predicate Visible(filter: string, status: string): (shown: bool)
    ensures filter == ShowAll ==> shown
    ensures filter != ShowAll ==> (shown <==> status == filter)
  {
    filter == ShowAll || status == filter
  }

  /** The display a filter gives a card. */
  function DisplayFor(filter: string, status: string): (d: Display)
    ensures d == Flex <==> Visible(filter, status)
    ensures d != Unset
  {
    if Visible(filter, status) then Flex else Hidden
  }

  /** The nine missions, M1 to M9 in that order, all pending. */
  lemma CatalogueStartsPending()
    ensures |Catalogue| == 9
    ensures forall k :: 0 <= k < |Catalogue| ==> Catalogue[k].status == Pending
    ensures forall k :: 0 <= k < |Catalogue| ==> Catalogue[k].id == "M" + [('1' as int + k) as char]
  {
  }

  class Board {
    /** `data-filter` of each filter button, in document order. */
    const filters: seq<string>
    /** Whether each filter button carries the highlight. */
    var highlighted: seq<bool>
    /** The cards of `#mission-grid`, in order. */
    var cards: seq<Card>

    ghost predicate Valid()
      reads this
    {
      |highlighted| == |filters|
    }

    /** Page load: one card per mission, in catalogue order, with the mission's status. */
    constructor (filters: seq<string>, highlighted: seq<bool>)
      requires |highlighted| == |filters|
      ensures Valid()
      ensures this.filters == filters && this.highlighted == highlighted
      ensures |cards| == |Catalogue|
      ensures forall k :: 0 <= k < |cards| ==>
                cards[k] == Card(Catalogue[k].id, Catalogue[k].status, Unset)
    {
      this.filters := filters;
      this.highlighted := highlighted;
      cards := [];
      new;
      var k := 0;
      while k < |Catalogue|
        modifies this`cards
        invariant 0 <= k <= |Catalogue|
        invariant |cards| == k
        invariant forall j :: 0 <= j < k ==> cards[j] == Card(Catalogue[j].id, Catalogue[j].status, Unset)
      {
        var m := Catalogue[k];
        cards := cards + [Card(m.id, m.status, Unset)];
        k := k + 1;
      }
    }

    /** A click on filter button `b`: only `b` ends up highlighted, and every card is shown
        exactly when it passes the filter; statuses do not change. */
    method ClickFilter(b: nat)
      requires Valid() && b < |filters|
      modifies this
      ensures Valid()
      ensures forall j :: 0 <= j < |highlighted| ==> (highlighted[j] <==> j == b)
      ensures |cards| == old(|cards|)
      ensures forall k :: 0 <= k < |cards| ==>
                && cards[k].missionId == old(cards[k].missionId)
                && cards[k].status == old(cards[k].status)
                && cards[k].display == DisplayFor(filters[b], cards[k].status)
    {
      var j := 0;
      while j < |highlighted|
        modifies this`highlighted
        invariant 0 <= j <= |highlighted| == |filters|
        invariant forall i :: 0 <= i < j ==> !highlighted[i]
      {
        highlighted := highlighted[j := false];
        j := j + 1;
      }
      highlighted := highlighted[b := true];

      var filter := filters[b];
      var k := 0;
      while k < |cards|
        modifies this`cards
        invariant 0 <= k <= |cards| == old(|cards|)
        invariant forall i :: 0 <= i < |cards| ==>
                    cards[i].missionId == old(cards[i].missionId) && cards[i].status == old(cards[i].status)
        invariant forall i :: 0 <= i < k ==> cards[i].display == DisplayFor(filter, cards[i].status)
        invariant forall i :: k <= i < |cards| ==> cards[i] == old(cards[i])
      {
        cards := cards[k := cards[k].(display := DisplayFor(filter, cards[k].status))];
        k := k + 1;
      }
    }

    /** A click on the start button of card `k`: that card's status becomes "progress";
        nothing else changes, and starting a card already in progress changes nothing. */
    method Start(k: nat)
      requires Valid() && k < |cards|
      modifies this`cards
      ensures Valid()
      ensures |cards| == old(|cards|)
      ensures cards[k] == old(cards[k]).(status := InProgress)
      ensures forall i :: 0 <= i < |cards| && i != k ==> cards[i] == old(cards[i])
      ensures old(cards[k].status) == InProgress ==> cards == old(cards)
    {
      cards := cards[k := cards[k].(status := InProgress)];
    }

    /** The document-wide click listener: it acts only when the click fell inside a start
        button (`target` is the index of that button's card). */
    method Click(target: Option<nat>)
      requires Valid() && (target.Some? ==> target.value < |cards|)
      modifies this`cards
      ensures Valid()
      ensures target.None? ==> cards == old(cards)
      ensures target.Some? ==>
                |cards| == old(|cards|) &&
                forall i :: 0 <= i < |cards| ==>
                  cards[i] == if i == target.value then old(cards[i]).(status := InProgress) else old(cards[i])
    {
      if target.None? {
        return;
      }
      Start(target.value);
    }
  }
}
