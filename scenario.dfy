/** A client of the three screens, checked against their contracts alone: starting from empty
    storage, add a character, add it again, and remove it, reloading the favorites screen
    after each step. */
module Scenario {
  import opened Wrappers
  import opened Characters
  import opened Storage
  import opened Favorites
  import opened Details

  method AddAddRemove() {
    var storage := new Store(Absent);
    var eren := Character(Num(1), "Eren");
    var details := new DetailsScreen(Num(1), storage);
    details.FetchCharacterDetails(Some(eren));
    var favoritesScreen := new FavoritesScreen(storage);

    var result := details.AddToFavorites(true);
    assert result == Added;
    favoritesScreen.LoadFavorites();
    assert favoritesScreen.favorites == [eren];

    result := details.AddToFavorites(true);
    assert result == AlreadyExists;
    favoritesScreen.LoadFavorites();
    assert favoritesScreen.favorites == [eren];

    favoritesScreen.RemoveFavorite(Num(1), true);
    favoritesScreen.LoadFavorites();
    assert favoritesScreen.favorites == [];
  }
}
